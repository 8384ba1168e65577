/**
 Token exchange and token acquisition over runs.  Neither holds a lock across
 its network round trips: a call locks the cache to look up and, if it misses,
 again to store.  Runs are arbitrary interleavings of these steps.
 */
module ExchangeRuns {
  import opened Base
  import opened TokenKey
  import opened Exchange
  import Scopes
  import Ttl = TtlCache

  // ---- Exchange ----

  /** `Finish` is a later step of the call that looked at step `look`, with the server it met. */
  datatype Step = Look(req: Request, getNow: int) | Finish(look: nat, endpoint: Endpoint, tokenNow: int)

  ghost predicate Linked(run: seq<Step>) {
    forall i :: 0 <= i < |run| && run[i].Finish? ==>
      run[i].look < i && run[run[i].look].Look? && run[run[i].look].req.subjectToken != ""
  }

  function RequestAt(run: seq<Step>, i: nat): Request
    requires i < |run|
  {
    if run[i].Look? then run[i].req
    else if run[i].look < |run| && run[run[i].look].Look? then run[run[i].look].req
    else Request("", Identity("", "", "", "", []), "", "")
  }

  function FinishResult(run: seq<Step>, i: nat): Result
    requires i < |run| && run[i].Finish?
  {
    ResultOf(RequestAt(run, i), run[i].endpoint, run[i].tokenNow)
  }

  function TraceOf(run: seq<Step>): (trace: seq<Ttl.Event<Token>>)
    ensures |trace| == |run|
  {
    seq(|run|, i requires 0 <= i < |run| =>
      if run[i].Look? then Looks(run[i].req, run[i].getNow)
      else var id := RequestAt(run, i).id; Finishes(CacheKey(id), id.subject != "", FinishResult(run, i)))
  }

  function ItemsAt(leeway: int, run: seq<Step>, i: nat): Items
    requires i <= |run|
  {
    Ttl.After(ExpiryOf, TraceOf(run)[..i], leeway)
  }

  /** The call that starts at step `i` is answered from the cache. */
  predicate HitAt(leeway: int, run: seq<Step>, i: nat)
    requires i < |run|
  {
    run[i].Look? && ServedFromCache(leeway, ItemsAt(leeway, run, i), run[i].req, Clock(run[i].getNow, 0))
  }

  function ServedAt(leeway: int, run: seq<Step>, i: nat): Token
    requires i < |run| && HitAt(leeway, run, i)
  {
    ItemsAt(leeway, run, i)[CacheKey(run[i].req.id)]
  }

  /** Step `j` ends an exchange with `key`, of a request with a subject, that got an expiring token. */
  ghost predicate Issued(run: seq<Step>, j: nat, key: string) {
    && j < |run| && run[j].Finish? && RequestAt(run, j).id.subject != "" && CacheKey(RequestAt(run, j).id) == key
    && FinishResult(run, j).Ok? && FinishResult(run, j).token.expiresAt.Some?
  }

  ghost predicate LatestIssued(run: seq<Step>, n: nat, j: nat, key: string) {
    j < n <= |run| && Issued(run, j, key) && forall k: nat :: j < k < n ==> !Issued(run, k, key)
  }

  /** The token that step `j` got has not lapsed at `now`. */
  predicate Lasts(leeway: int, run: seq<Step>, j: nat, now: int)
    requires j < |run| && run[j].Finish? && FinishResult(run, j).Ok? && FinishResult(run, j).token.expiresAt.Some?
  {
    now < FinishResult(run, j).token.expiresAt.value - leeway
  }

  lemma IssuedIsStore(run: seq<Step>, n: nat, j: nat, key: string)
    requires n <= |run|
    ensures LatestIssued(run, n, j, key) <==> Ttl.LatestStore(TraceOf(run), n, j, key)
  {
    assert forall k: nat :: Issued(run, k, key) <==> Ttl.Stores(TraceOf(run), k, key);
  }

  /**
   However calls overlap, a hit is the token that the latest exchange with its
   key got from the server: not empty, and not yet lapsed.
   */
  lemma HitProvenance(leeway: int, run: seq<Step>, i: nat) returns (j: nat)
    requires i < |run| && Linked(run) && HitAt(leeway, run, i)
    ensures LatestIssued(run, i, j, CacheKey(run[i].req.id)) && FinishResult(run, j) == Ok(ServedAt(leeway, run, i))
    ensures Lasts(leeway, run, j, run[i].getNow) && ServedAt(leeway, run, i).accessToken != ""
  {
    j := Ttl.EntryIsLatestStore(ExpiryOf, TraceOf(run), i, CacheKey(run[i].req.id), leeway);
    IssuedIsStore(run, i, j, CacheKey(run[i].req.id));
    VerdictIsExact(Deciding(run[j].endpoint, FormOf(RequestAt(run, j))), run[j].tokenNow);
  }

  /** The exchange at step `j` was for the same subject, audience and token types, and the same scope words. */
  ghost predicate AskedAlike(run: seq<Step>, j: nat, req: Request) {
    && j < |run| && run[j].Finish?
    && SameFields(RequestAt(run, j).id, req.id) && Asked(RequestAt(run, j).id) == Asked(req.id)
  }

  /** If nobody's fields hold a bar, a hit's token came from an exchange that asked for the same. */
  lemma CallersAreIsolated(leeway: int, run: seq<Step>, i: nat) returns (j: nat)
    requires i < |run| && Linked(run) && HitAt(leeway, run, i)
    requires forall k: nat | k < |run| && run[k].Look? :: BarFreeFields(run[k].req.id)
    ensures j < i && AskedAlike(run, j, run[i].req) && FinishResult(run, j) == Ok(ServedAt(leeway, run, i))
    ensures ServedAt(leeway, run, i).expiresAt.Some? && Lasts(leeway, run, j, run[i].getNow)
    ensures Clean(RequestAt(run, j).id) && Clean(run[i].req.id) ==> SameRequest(RequestAt(run, j).id, run[i].req.id)
  {
    j := HitProvenance(leeway, run, i);
    assert run[run[j].look].Look?;
    FieldsReadBack(RequestAt(run, j).id, run[i].req.id);
    SameFieldAsksAlike(RequestAt(run, j).id, run[i].req.id);
    if Clean(RequestAt(run, j).id) && Clean(run[i].req.id) {
      KeysEqualExactly(RequestAt(run, j).id, run[i].req.id);
    }
  }

  /** ... and so did that of a caller that passes the check on its own request, whatever everyone else sends. */
  lemma OwnCheckIsolates(leeway: int, run: seq<Step>, i: nat) returns (j: nat)
    requires i < |run| && Linked(run) && HitAt(leeway, run, i)
    requires OwnKey(run[i].req.id)
    ensures j < i && AskedAlike(run, j, run[i].req) && FinishResult(run, j) == Ok(ServedAt(leeway, run, i))
    ensures ServedAt(leeway, run, i).expiresAt.Some? && Lasts(leeway, run, j, run[i].getNow)
  {
    j := HitProvenance(leeway, run, i);
    CachedUnsharedExactly(run[i].req.id);
    SameFieldAsksAlike(RequestAt(run, j).id, run[i].req.id);
  }

  /** On a nondecreasing lookup clock a hit happens exactly while the latest stored token lasts. */
  lemma HitExactly(leeway: int, run: seq<Step>, i: nat)
    requires i < |run| && run[i].Look? && run[i].req.subjectToken != "" && run[i].req.id.subject != ""
    requires forall k :: 0 <= k < i && run[k].Look? ==> run[k].getNow <= run[i].getNow
    ensures HitAt(leeway, run, i) <==>
            exists j: nat :: LatestIssued(run, i, j, CacheKey(run[i].req.id)) && Lasts(leeway, run, j, run[i].getNow)
  {
    var key := CacheKey(run[i].req.id);
    Ttl.HitIsLatestStore(ExpiryOf, TraceOf(run), i, key, run[i].getNow, leeway);
    forall j: nat ensures LatestIssued(run, i, j, key) <==> Ttl.LatestStore(TraceOf(run), i, j, key) {
      IssuedIsStore(run, i, j, key);
    }
  }

  /** The key leaves out the resource, the actor and the subject token: they change no hit, nor what it returns. */
  lemma HitsIgnoreOtherFields(leeway: int, items: Items, req: Request, other: Request, endpoint: Endpoint, clock: Clock)
    requires req.id == other.id && req.subjectToken != "" && other.subjectToken != ""
    ensures ServedFromCache(leeway, items, req, clock) == ServedFromCache(leeway, items, other, clock)
    ensures ServedFromCache(leeway, items, req, clock) ==>
              ExchangeEffect(leeway, items, req, endpoint, clock) ==
              ExchangeEffect(leeway, items, other, endpoint, clock)
  {
  }

  /** One exchange in full, then the lookup of another call. */
  function Followed(req: Request, endpoint: Endpoint, t: int, other: Request, later: int): seq<Step> {
    [Look(req, t), Finish(0, endpoint, t), Look(other, later)]
  }

  lemma FollowedStores(req: Request, endpoint: Endpoint, t: int, other: Request, later: int)
    requires req.subjectToken != "" && req.id.subject != ""
    ensures var trace := TraceOf(Followed(req, endpoint, t, other, later));
            trace[0].Lookup? && trace[1] == Finishes(CacheKey(req.id), true, ResultOf(req, endpoint, t))
  {
    var run := Followed(req, endpoint, t, other, later);
    assert RequestAt(run, 1) == req && FinishResult(run, 1) == ResultOf(req, endpoint, t);
  }

  /** A caller is served the token of any exchange with its key, exactly while that lasts. */
  lemma SharedKeyIsServed(leeway: int, req: Request, endpoint: Endpoint, t: int, other: Request, later: int)
    requires req.subjectToken != "" && req.id.subject != "" && other.subjectToken != "" && other.id.subject != ""
    requires CacheKey(req.id) == CacheKey(other.id) && ResultOf(req, endpoint, t).Ok? && t <= later
    ensures var run := Followed(req, endpoint, t, other, later);
            && (HitAt(leeway, run, 2) <==> Ttl.Usable(ResultOf(req, endpoint, t).token.expiresAt, later, leeway))
            && (HitAt(leeway, run, 2) ==> ServedAt(leeway, run, 2) == ResultOf(req, endpoint, t).token)
  {
    var run := Followed(req, endpoint, t, other, later);
    var trace, key := TraceOf(run), CacheKey(req.id);
    FollowedStores(req, endpoint, t, other, later);
    HitExactly(leeway, run, 2);
    assert trace[1].Store? ==> LatestIssued(run, 2, 1, key);
    if HitAt(leeway, run, 2) {
      var j := Ttl.EntryIsLatestStore(ExpiryOf, trace, 2, key, leeway);
      assert j == 1;
    }
  }

  /** So every caller that fails the check can be served what another subject, audience or token type was issued. */
  lemma UncheckedCallerIsServed(
    leeway: int, req: Request, subjectToken: string, endpoint: Endpoint, t: int, later: int) returns (foreign: Request)
    requires req.subjectToken != "" && req.id.subject != "" && subjectToken != "" && t <= later
    requires !OwnKey(req.id)
    ensures foreign.subjectToken == subjectToken && !SameFields(foreign.id, req.id)
    ensures var result, run := ResultOf(foreign, endpoint, t), Followed(foreign, endpoint, t, req, later);
            result.Ok? && Ttl.Usable(result.token.expiresAt, later, leeway) ==>
              HitAt(leeway, run, 2) && ServedAt(leeway, run, 2) == result.token
  {
    var id := CachedKeysCollide(req.id);
    foreign := Request(subjectToken, id, "", "");
    if ResultOf(foreign, endpoint, t).Ok? {
      SharedKeyIsServed(leeway, foreign, endpoint, t, req, later);
    }
  }

  /** And an exchange for another resource, which would send another form, gets the first one's token. */
  lemma OtherResourceIsServed(leeway: int, req: Request, resource: string, endpoint: Endpoint, t: int, later: int)
    requires req.subjectToken != "" && req.id.subject != "" && resource != req.resource
    requires ResultOf(req, endpoint, t).Ok? && t <= later
    ensures FormOf(req.(resource := resource)) != FormOf(req)
    ensures var run := Followed(req, endpoint, t, req.(resource := resource), later);
            && (HitAt(leeway, run, 2) <==> Ttl.Usable(ResultOf(req, endpoint, t).token.expiresAt, later, leeway))
            && (HitAt(leeway, run, 2) ==> ServedAt(leeway, run, 2) == ResultOf(req, endpoint, t).token)
  {
    SharedKeyIsServed(leeway, req, endpoint, t, req.(resource := resource), later);
  }

  // ---- Provide ----

  /** `Deliver` is a later step of the acquisition that sought at step `seek`, with the servers it met. */
  datatype Phase = Seek(assertion: string, subject: string, getNow: int) | Deliver(seek: nat, env: Environment)

  ghost predicate Chained(run: seq<Phase>) {
    forall i :: 0 <= i < |run| && run[i].Deliver? ==>
      run[i].seek < i && run[run[i].seek].Seek? && run[run[i].seek].assertion != ""
  }

  /** The assertion and subject of the acquisition a phase belongs to. */
  function OriginAt(run: seq<Phase>, i: nat): (string, string)
    requires i < |run|
  {
    if run[i].Seek? then (run[i].assertion, run[i].subject)
    else if run[i].seek < |run| && run[run[i].seek].Seek? then (run[run[i].seek].assertion, run[run[i].seek].subject)
    else ("", "")
  }

  function Delivered(p: Provider, run: seq<Phase>, i: nat): Result
    requires i < |run| && run[i].Deliver?
  {
    Legs(p, OriginAt(run, i).0, run[i].env).0
  }

  function PhaseTrace(p: Provider, run: seq<Phase>): (trace: seq<Ttl.Event<Token>>)
    ensures |trace| == |run|
  {
    seq(|run|, i requires 0 <= i < |run| =>
      if run[i].Seek? then Seeks(p, run[i].assertion, run[i].subject, run[i].getNow)
      else
        var subject := OriginAt(run, i).1;
        Finishes(ProvideKey(p, subject), CachesFor(p, subject), Delivered(p, run, i)))
  }

  function ProvidedAt(p: Provider, run: seq<Phase>, i: nat): Items
    requires i <= |run|
  {
    Ttl.After(ExpiryOf, PhaseTrace(p, run)[..i], p.leeway)
  }

  /** The acquisition that starts at step `i` sends nothing and returns a stored token. */
  predicate FoundAt(p: Provider, run: seq<Phase>, i: nat)
    requires i < |run|
  {
    run[i].Seek? && run[i].assertion != "" && CachesFor(p, run[i].subject) &&
    Hit(ProvidedAt(p, run, i), ProvideKey(p, run[i].subject), run[i].getNow, p.leeway)
  }

  lemma SubjectsHaveOwnKeys(p: Provider, a: string, b: string)
    requires ProvideKey(p, a) == ProvideKey(p, b)
    ensures a == b
  {
    var rest := "|" + (p.audience + "|" + ("" + "|" + ("" + "|" + Scopes.Join(Sort(p.scope), " "))));
    assert ProvideKey(p, a) == a + rest && ProvideKey(p, b) == b + rest;
    assert |a| == |b|;
    assert a == (a + rest)[..|a|] && b == (b + rest)[..|b|];
  }

  /** Step `j` ends an acquisition for `subject` that got an expiring token, in a provider that caches. */
  ghost predicate Acquired(p: Provider, run: seq<Phase>, j: nat, subject: string) {
    && j < |run| && run[j].Deliver? && OriginAt(run, j).1 == subject && p.caching && subject != ""
    && Delivered(p, run, j).Ok? && Delivered(p, run, j).token.expiresAt.Some?
  }

  ghost predicate LatestAcquired(p: Provider, run: seq<Phase>, n: nat, j: nat, subject: string) {
    j < n <= |run| && Acquired(p, run, j, subject) && forall k: nat :: j < k < n ==> !Acquired(p, run, k, subject)
  }

  predicate StillGood(p: Provider, run: seq<Phase>, j: nat, now: int)
    requires j < |run| && run[j].Deliver? && Delivered(p, run, j).Ok? && Delivered(p, run, j).token.expiresAt.Some?
  {
    now < Delivered(p, run, j).token.expiresAt.value - p.leeway
  }

  lemma AcquiredIsStore(p: Provider, run: seq<Phase>, n: nat, j: nat, subject: string)
    requires n <= |run| && CachesFor(p, subject)
    ensures LatestAcquired(p, run, n, j, subject) <==> Ttl.LatestStore(PhaseTrace(p, run), n, j, ProvideKey(p, subject))
  {
    forall k: nat ensures Acquired(p, run, k, subject) <==> Ttl.Stores(PhaseTrace(p, run), k, ProvideKey(p, subject)) {
      if Ttl.Stores(PhaseTrace(p, run), k, ProvideKey(p, subject)) {
        SubjectsHaveOwnKeys(p, OriginAt(run, k).1, subject);
      }
    }
  }

  /**
   However acquisitions overlap, a token returned without a post is the one the
   latest finished acquisition for the same subject got from both legs, still
   before its expiry less the leeway; no bar-free names are needed.
   */
  lemma SubjectsAreIsolated(p: Provider, run: seq<Phase>, i: nat) returns (j: nat)
    requires i < |run| && Chained(run) && FoundAt(p, run, i)
    ensures j < i && run[j].Deliver? && OriginAt(run, j).0 != "" && OriginAt(run, j).1 == run[i].subject
    ensures Delivered(p, run, j) == Ok(ProvidedAt(p, run, i)[ProvideKey(p, run[i].subject)])
    ensures LatestAcquired(p, run, i, j, run[i].subject) && StillGood(p, run, j, run[i].getNow)
  {
    j := Ttl.EntryIsLatestStore(ExpiryOf, PhaseTrace(p, run), i, ProvideKey(p, run[i].subject), p.leeway);
    AcquiredIsStore(p, run, i, j, run[i].subject);
  }

  /** On a nondecreasing clock a token is found exactly while the latest one acquired for the subject lasts. */
  lemma FoundExactly(p: Provider, run: seq<Phase>, i: nat)
    requires i < |run| && run[i].Seek? && run[i].assertion != "" && Chained(run)
    requires forall k :: 0 <= k < i && run[k].Seek? ==> run[k].getNow <= run[i].getNow
    ensures FoundAt(p, run, i) <==>
            exists j: nat :: LatestAcquired(p, run, i, j, run[i].subject) && StillGood(p, run, j, run[i].getNow)
  {
    var trace, subject := PhaseTrace(p, run), run[i].subject;
    var key := ProvideKey(p, subject);
    Ttl.HitIsLatestStore(ExpiryOf, trace, i, key, run[i].getNow, p.leeway);
    if CachesFor(p, subject) {
      forall j: nat ensures LatestAcquired(p, run, i, j, subject) <==> Ttl.LatestStore(trace, i, j, key) {
        AcquiredIsStore(p, run, i, j, subject);
      }
    }
  }

  /** Only tokens that expire are ever stored. */
  lemma {:induction false} StoredTokensExpire(p: Provider, run: seq<Phase>, n: nat, key: string)
    requires n <= |run| && key in ProvidedAt(p, run, n)
    ensures ProvidedAt(p, run, n)[key].expiresAt.Some?
  {
    var j := Ttl.EntryIsLatestStore(ExpiryOf, PhaseTrace(p, run), n, key, p.leeway);
  }
}
