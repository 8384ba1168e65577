# mcp-auth-go: a verified model

Dafny models and proofs for the authorization library mcp-auth-go: the DPoP
(RFC 9449) resource-server protocol with its in-memory and Redis replay caches
and its signed nonces, the session store, token introspection and its cache,
token exchange and the two-leg identity-assertion flow, authorization policies
behind the tool gate, and the text forms (challenges, scope lists, cache keys).
`dafny verify dfyconfig.toml` checks all of it.

## How it is modelled

- Time is an integer number of nanoseconds. Each clock reading the code makes is
  its own parameter, so the verifier's reading and the replay cache's reading of
  one request can differ. Clock assumptions (nondecreasing, shared) are stated by
  each theorem that needs them.
- Every stretch of code that holds a mutex is one atomic step; a concurrent
  execution is a sequence of steps in lock order. `Validate`, `Exchange` and
  `Provide` hold none across the network: each of their calls is a look-up step
  and, after a miss, a later store step, and their runs are arbitrary
  interleavings of the steps of any number of calls. Redis executes one command
  at a time, so an interleaving of replicas is a sequence of attempts in the
  store's order.
- Foreign code is a parameter: JWS parsing and verification, JSON decoding,
  thumbprints, SHA-256, HMAC, base64url, the part of `url.Parse` before the
  query, id generators, random bytes, HTTP servers, rate limiters. They are
  functions or values without assumptions, except `Nonce.Lawful` (a MAC has 32
  bytes, base64url decodes what it encoded, the empty text decodes to no bytes)
  and, where a theorem says so, an injective digest or a '?'-free base of a URL.
- Code that updates state is a class or a method with loops (Go's `range` over a
  map takes keys in arbitrary order), proved equal to a function of the old
  state; the theorems are about that function. For the two token caches the
  function covers what callers hold too: objects, slices and maps are numbers, so
  that aliasing is part of the value.

| file | models |
|---|---|
| `Replay.dfy` | dpop/replay.go |
| `Nonce.dfy` | dpop/nonce.go |
| `Dpop.dfy` | dpop/proof.go, dpop/verifier.go |
| `HttpGate.dfy` | transport/http/middleware.go, the request steps |
| `RedisReplay.dfy`, `Cluster.dfy` | dpop/redisreplay/cache.go, and the verifier over it |
| `Session.dfy` | session.go |
| `TtlCache.dfy` | what introspection/cache.go and exchange/cache.go have in common |
| `ClaimsCache.dfy` | introspection/cache.go, on the heap |
| `Introspection.dfy` | introspection/introspection.go, single calls and interleaved runs |
| `TokenKey.dfy` | exchange/exchanger.go, the cache key |
| `Exchange.dfy` | exchange/exchanger.go, exchange/idjag.go, requests, replies and what one call does |
| `ExchangeRuns.dfy` | exchange/exchanger.go, exchange/idjag.go, interleaved runs |
| `TokenCache.dfy` | exchange/cache.go, on the heap |
| `Exchanger.dfy` | the methods of exchange/exchanger.go and exchange/idjag.go over that cache |
| `Policy.dfy` | authorizer.go, transport/mcpauth/toolgate.go |
| `Challenge.dfy` | both transports' challenge printers and the challenge writer |
| `Scopes.dfy` | claims.go, the scope splitter |

## What was found

- **Single use has one open instant.** The freshness window is closed at
  iat + leeway while the cache treats its entry as expired from that instant on.
  `Dpop.SingleUse` holds for every run in which no presentation has its verifier
  reading at or before iat + leeway and its cache reading at or after it;
  `Dpop.BoundaryReplayExists` is a concrete run that accepts one proof twice, and
  `Dpop.SecondAcceptanceExactly` says exactly when that happens.
- **The nonce retry may keep its jti.** The comment at dpop/proof.go:126-131 has
  the client retry with a new jti; `HttpGate.OneRetryCompletes` shows the same
  jti is served, because a challenged proof is not recorded.
- **Across replicas single use ends before the proof does.** With under a
  millisecond left the Redis cache does not ask the store, so every such
  presentation is accepted (`Cluster.OpenErrorsAndLastMomentsAreAccepted`). And
  the store keeps an entry for whole milliseconds only, so a presentation with a
  millisecond left can still reach it after the entry lapsed:
  `Cluster.LateReplayExists` accepts one proof twice with exact clocks, no fault
  and 0.2 ms of delay, and `Cluster.SecondPresentationExactly` says when.
  `Cluster.SingleUseAcrossCluster` counts both kinds; `Cluster.InTimeIsNotLate` is
  a condition on clocks and delays that rules the second out.
- **A bar in a jti or URL can spend another proof.** The cache joins jti and URL
  with '|' and escapes neither, so a proof can be refused though its jti was never
  used (`Dpop.BarredUseExample`). A pair has its entry to itself exactly without a
  bar, but for the jti's first character (`Dpop.UseIsOwnExactly`); then, or if no
  jti has a bar, a new use is always granted (`Dpop.NewUseIsGranted`).
- **A lone '?' is not stripped.** `url.Parse` marks it as a forced query, which
  clearing the query text leaves in place, so `https://h/p?` does not match
  `https://h/p` although `https://h/p?x=1` does (`Dpop.LoneQuestionMarkMismatches`,
  `Dpop.LoneQuestionMarkExample`; `Dpop.StripsAlikeExactly` is the exact condition).
- **The exchange key is shared exactly when a bar lets it be.** Nothing is
  validated or escaped, so every request with a '|' in a field
  (`TokenKey.BarsCollide`) or in a scope (`TokenKey.ScopeBarsCollide`,
  `TokenKey.ScopeBarExample`) shares its key with one for someone or something
  else; without one it shares it with nobody, whatever others send
  (`TokenKey.UnsharedExactly`). Only requests with a subject are cached, which
  makes one bar harmless, as a subject's first character: that is the check a
  caller can make on its own request (`TokenKey.CachedUnsharedExactly`). Who passes
  it is served only its own tokens (`ExchangeRuns.OwnCheckIsolates`), and who fails
  it can be served another's (`ExchangeRuns.UncheckedCallerIsServed`). The doc
  comment at exchange/exchanger.go:73-78 names three key fields; the code keys on
  five, and the model follows the code. A provider's keys do not need the
  condition (`ExchangeRuns.SubjectsAreIsolated`).
- **The exchange key leaves out the resource, the actor and the subject token.**
  A hit ignores them (`ExchangeRuns.HitsIgnoreOtherFields`), so a request for
  another resource is served the first one's token exactly while that lasts
  (`ExchangeRuns.OtherResourceIsServed`).
- **The exchange cache copies on one side.** Tokens from `Get` may be mutated
  freely until they are stored again (`TokenCache.OwnMutationsAreInvisible`); a
  token passed to `Set` stays the entry, and `Exchange` returns the very token it
  stored, so its caller's changes reach the next hit
  (`Exchanger.FirstCallerReachesNext`). `TokenCache.MutationsShowExactly` decides
  for every mutation whether the cache shows it. The introspection cache copies on
  both sides (`ClaimsCache.MutationsAreInvisible`).
- **A cached introspection verdict outlives a revocation** exactly while the
  latest verdict stored for the token is before expiry - leeway, in every
  interleaving (`Introspection.RevocationIsDelayedExactly`); with a server that
  keeps to its answers the cache is invisible.
- **A lifetime over 9223372036 seconds wraps** in the int64 duration
  (`Exchange.LifetimesFitExactly`): one second more gives a token that has
  already expired.

## Model

| member | source | states |
|---|---|---|
| Replay.SeenBeforeIsHistory | dpop/replay.go:44-61 | With a nondecreasing cache clock, in every trace and despite sweeps, `SeenBefore` answers true exactly when an earlier call on the same joined key answered false with an expiry later than now |
| Replay.LiveIsHistory | dpop/replay.go:49-59 | The invariant behind it: at any later instant an entry is live exactly when some first sight of its key outlives that instant, so neither overwriting nor sweeping loses one |
| Replay.EntriesAreFirstSights | dpop/replay.go:52-59 | Every stored entry is the key and expiry of some call answered false |
| Replay.LargeMapsAreFresh | dpop/replay.go:53-59 | A map past 1024 entries holds only entries unexpired at the last insertion |
| Replay.MapFitsWindow | dpop/replay.go:52-59 | If expiries lie at most a span after the callers' readings, a map past 1024 is no larger than the number of first sights in that span before the last insertion |
| Replay.MemoryReplayCache.SeenBefore | dpop/replay.go:44-61 | The locked method with its sweep loop returns and leaves exactly what one step of the trace model does under the key jti, bar, htu |
| Dpop.ScreeningIsReceiverChecks | dpop/proof.go:36-133 | The ordered checks let a proof through to the cache exactly when an order-free list of receiver checks holds (section 4.3 of RFC 9449): bound to the request, iat within the leeway on either side, the nonce valid; and challenge for a nonce exactly when it fails on that alone |
| Dpop.AcceptedExactly | dpop/proof.go:103-139 | In every run a screened presentation is granted exactly when every earlier accepted proof with the same jti and stripped htu around a bar has iat + leeway at or before the cache's reading, and is otherwise refused as a replay |
| Dpop.SecondAcceptanceNeedsBoundary | dpop/proof.go:103-139 | A proof accepted before is accepted again only with verifier reading <= iat + leeway <= cache reading |
| Dpop.SecondAcceptanceExactly | dpop/proof.go:103-139 | With no later-expiring proof under the same key, re-presentation succeeds exactly from iat + leeway on |
| Dpop.SingleUse | dpop/proof.go:103-139 | In every run without a presentation straddling that instant, a proof is accepted at most once (section 11.1 of RFC 9449) |
| Dpop.BoundaryAdmitsReplay | dpop/replay.go:49-52 | Any proof that passes the checks and meets the cache at iat + leeway or later is granted twice in a row |
| Dpop.BoundaryReplayExists | dpop/proof.go:103-107 | A concrete verifier and proof for which this happens with equal clock readings |
| Dpop.NewKeyIsGranted | dpop/proof.go:136-140 | A screened proof whose jti, bar and stripped htu were never accepted is granted, whatever the clocks did |
| Dpop.NewUseIsGranted | dpop/proof.go:136-140 | Whatever the clocks did, a screened proof is granted if every earlier accepted one has another jti or another stripped htu, provided its own have no second bar or no jti has one |
| Dpop.SpentUseIsRefused | dpop/proof.go:136-140 | On a nondecreasing cache clock it is refused as a replay while an accepted proof with its jti and stripped htu has not reached iat + leeway |
| Dpop.UseIsOwnExactly | dpop/replay.go:44-46 | A jti and URL share their entry with no other pair exactly when neither has a bar, but for the jti's first character |
| Dpop.BarredUseExample | dpop/replay.go:44-46 | A concrete proof with a never-used jti and URL that is refused as a replay |
| Dpop.RejectionsLeaveNoTrace | dpop/proof.go:36-141 | Deleting any set of rejected presentations from any run changes no other answer and not the cache |
| Dpop.MemoryIsBounded | dpop/proof.go:103-137 | With one shared clock the map never exceeds the larger of 1024 and the proofs accepted in the 2 x leeway ending at the last insertion |
| Dpop.AlgSet | dpop/verifier.go:99-110 | The loop keeps exactly the listed algorithms other than none and the HMAC family |
| Dpop.NewVerifier | dpop/verifier.go:70-95 | The leeway is the given one when at least a second, else the default; the algorithms are exactly the given or default list without none and the HMAC family |
| Dpop.StripsAlikeExactly | dpop/proof.go:155-163 | Two URLs that parse compare equal as htu exactly when their parts before the query agree and both or neither end in a lone '?' |
| Dpop.LoneQuestionMarkMismatches | dpop/proof.go:155-163 | Any non-empty query is ignored, but a lone '?' makes the URL mismatch the one without it |
| Dpop.Enforce | dpop/verifier.go:137-152 | `Enforce` over the in-memory cache answers and updates as one step of the run model |
| Nonce.IssueValidateRoundTrip | dpop/nonce.go:73-108 | A nonce issued at t >= 0 validates at t' on any replica with the same secret exactly when floor(t) - 5s <= t' <= floor(t) + that replica's lifetime, so never after t + lifetime |
| Nonce.OnlyIssuedBytesValidate | dpop/nonce.go:90-108 | A nonce validates exactly when it decodes to the 56 bytes of a second in the window, big-endian, 16 random bytes and the MAC of both |
| Nonce.DecodeEncoded | dpop/nonce.go:79 | Reading back a big-endian integer of any width returns it |
| Nonce.EncodeDecoded | dpop/nonce.go:99 | Every byte string is the big-endian form of what it reads as |
| Nonce.FirstByteWeighsMost | dpop/nonce.go:99 | The first byte carries the highest weight |
| Nonce.PutUint64 | dpop/nonce.go:79 | Writes the eight big-endian bytes in place and nothing else |
| Nonce.IssueInto | dpop/nonce.go:73-85 | Filling the 56-byte buffer in place yields the specified nonce, empty for a pre-1970 clock or a failed random source |
| Nonce.NewSignedNonce | dpop/nonce.go:51-61 | Fails exactly for a secret under 32 bytes; the lifetime is the given one when positive, else five minutes |
| HttpGate.OneRetryCompletes | transport/http/middleware.go:107-127 | After a nonce challenge, whatever comes between, the same claims plus that nonce (same jti allowed) are served if iat is fresh, at most lifetime - 1s has passed, the rate limit allows, and the joined key was not accepted before (section 9 of RFC 9449) |
| HttpGate.ServedExactly | transport/http/middleware.go:94-152 | With or without a DPoP verifier, a request is served exactly when its token, its proof where one is demanded, and its rate limit pass; a refused token keeps its code |
| HttpGate.ResponseExactly | transport/http/middleware.go:94-152 | In every run, from the request's own fields: a valid bound token is served exactly on one proof for this method, URL and token by its key, on time, with a good nonce and unspent, and within the rate limit; an unbound one exactly in opportunistic mode; every other response has the code of what failed first and a nonce only on a nonce challenge (sections 4.3, 7.2, 9 and 11.1 of RFC 9449) |
| HttpGate.OneProofServesOnce | transport/http/middleware.go:94-152 | End to end: unless a presentation straddles iat + leeway, one proof serves at most one request of any run |
| HttpGate.SecondServiceStraddles | transport/http/middleware.go:94-152 | A proof that served a request serves a later one only with verifier reading <= iat + leeway <= cache reading |
| HttpGate.NoncesHandedOutValidate | transport/http/middleware.go:116-147 | Every nonce on a challenge or a rotated response validates exactly throughout its window |
| RedisReplay.SingleUseAcrossReplicas | dpop/redisreplay/cache.go:117-137 | For all replicas and interleavings, in one lifetime of a key the first sights with at least 1 ms left number at most one plus the store errors that failed open; at most one if every replica fails closed |
| RedisReplay.EntryPersists | dpop/redisreplay/cache.go:128 | Within one lifetime a stored entry is never overwritten or lost |
| RedisReplay.OneProofHasOneLifetime | dpop/redisreplay/cache.go:118-128 | Attempts with one expiry, replica clocks not ahead of the store's, reaching the store at least a millisecond before it, all fall in one lifetime |
| RedisReplay.SeenBeforeIsHistory | dpop/redisreplay/cache.go:128-136 | On a nondecreasing store clock a key is present exactly when an earlier stored attempt has not lapsed |
| RedisReplay.ReplayCache.SeenBefore | dpop/redisreplay/cache.go:117-137 | The 1 ms guard, the set-if-absent and the fail mode return and leave exactly what one attempt of the model does |
| RedisReplay.ReplayCache.New | dpop/redisreplay/cache.go:83-110 | Fails exactly for a missing client or an unset mode; the prefix is the given one or the default, and keys are digested as given |
| RedisReplay.Store.SetNX | dpop/redisreplay/cache.go:128 | Atomic set-if-absent that keeps an entry for whole milliseconds of its time to live, and may fail before or after taking effect |
| Cluster.SingleUseAcrossCluster | dpop/redisreplay/cache.go:117-137 | For all replicas, clocks, leeways, interleavings and other traffic on its key, a proof is accepted at most once, plus once per store error that failed open, per presentation in its last millisecond and per presentation that reaches the store after an entry of it lapsed; only the store's clock is nondecreasing |
| Cluster.FailClosedClusterSingleUse | dpop/redisreplay/cache.go:117-137 | ... so at most once if its replicas fail closed and there are none of the last two |
| Cluster.InTimeIsNotLate | dpop/redisreplay/cache.go:117-128 | No presentation is late when replica clocks are not ahead of the store's and each reaches the store a millisecond before the expiry |
| Cluster.SecondSightNeedsLapse | dpop/redisreplay/cache.go:128-136 | A proof that the store called new is called new again only once its entry has lapsed, whatever else was stored under its key |
| Cluster.SecondPresentationExactly | dpop/redisreplay/cache.go:117-137 | Of two presentations that ask the store, the second is accepted exactly when it reaches it after the first one's truncated entry lapsed |
| Cluster.LateReplayExists | dpop/redisreplay/cache.go:117-137 | A concrete proof accepted twice by fail-closed replicas with exact clocks, a millisecond left both times and 0.2 ms of delay |
| Cluster.AcceptedExactly | dpop/redisreplay/cache.go:117-137 | From the claims, on a nondecreasing store clock: a screened presentation with under a millisecond left is accepted, on a store error the fail mode decides, and otherwise it is accepted exactly when everything stored for its jti and htu has lapsed |
| Cluster.OpenErrorsAndLastMomentsAreAccepted | dpop/redisreplay/cache.go:118-134 | Every presentation that meets a store error and fails open, or has under a millisecond left, is accepted |
| Cluster.Enforce | dpop/verifier.go:137-152 | `Enforce` over the shared store answers and updates it as its presentation does in a run of replicas |
| Session.LazyRefinesIdeal | session.go:83-152 | For all operation sequences on a nondecreasing clock and any id generator, every reply equals that of a store dropping all expired sessions at every step |
| Session.StepRefines | session.go:83-152 | One step keeps the live sessions of both stores equal and gives equal replies |
| Session.RunKeepsCap | session.go:92-101 | With a positive cap no run stores more than the cap for any user, for every clock and even repeated ids |
| Session.RefusedExactlyAtCap | session.go:92-96 | In every reachable state `Open` is refused for the cap exactly when the user's live sessions fill it |
| Session.RepliesFromHistory | session.go:83-152 | On a nondecreasing clock and for any ids, every reply follows from the operations and replies before it: `Touch` succeeds exactly if the session's last opening or successful touch is no longer ago than the timeout and it was not closed since; `Count` counts, and the cap of `Open` compares, exactly the user's sessions for which that holds |
| Session.RunIsRecorded | session.go:83-152 | The invariant behind it: the store holds each session's owner and latest refresh, and lacks only sessions that were closed or have timed out |
| Session.MemoryStore.ReapForUser | session.go:133-142 | The deletion loop removes exactly the user's expired sessions |
| Session.MemoryStore.CountForUser | session.go:144-152 | The loop counts exactly the user's stored sessions |
| Session.MemoryStore.Open | session.go:83-101 | State and reply are the model's, including the empty user and the cap |
| Session.MemoryStore.Touch | session.go:103-116 | State and reply are the model's: unknown, expired (dropped) or slid forward |
| Session.MemoryStore.Close | session.go:118-122 | Removes exactly the session |
| Session.MemoryStore.Count | session.go:124-129 | State and count are the model's |
| TtlCache.EntryIsLatestStore | introspection/cache.go:45-66 | In every trace of lookups and stores, an entry is the value of the latest store under its key |
| TtlCache.HitIsLatestStore | exchange/cache.go:38-63 | On a nondecreasing lookup clock, a lookup hits exactly when the latest store under its key is before expiry - leeway; no lookup in between dropped it |
| ClaimsCache.MutationsAreInvisible | introspection/cache.go:45-87 | For any script of stores, lookups and caller mutations (fields, slice elements, raw entries, new or nil slices and maps, sharing), every object handed out has the value that a cache of values gives for the stores alone |
| ClaimsCache.RunScript | introspection/cache.go:45-87 | The heap run of any script ends exactly where the value model does: cache contents, every held object, and which slices and maps are shared |
| ClaimsCache.Act | introspection/cache.go:45-66 | One action on the heap is one step of that model, and nothing callers reach is reachable from the cache |
| ClaimsCache.ActGet | introspection/cache.go:54-66 | A lookup adds the returned object, which is new in all its parts, as the model's next handle; its value is the stored one |
| ClaimsCache.CopyClaims | introspection/cache.go:72-87 | The copy has an equal value and shares no object with the original |
| ClaimsCache.MemoryCache.Set | introspection/cache.go:45-50 | Stores the argument's present value, in fresh objects only |
| ClaimsCache.MemoryCache.Get | introspection/cache.go:54-66 | Returns a fresh copy while now < expiry - leeway, otherwise drops the entry |
| Introspection.CacheIsTransparent | introspection/introspection.go:190-235 | In every interleaving, if the server keeps to its answer per token, a call returns the same with the cache as without |
| Introspection.StalenessIsBounded | introspection/introspection.go:195-201 | In every interleaving and for any server, a hit is the latest verdict stored for the same token, and only before its expiry - leeway (section 4 of RFC 7662) |
| Introspection.ClaimsAreForUs | introspection/introspection.go:190-235 | In every interleaving, from the cache or not, returned claims are, member by member, those of a reply for the same token that was active and for our issuer and audience |
| Introspection.AcceptedExactly | introspection/introspection.go:211-228 | Which replies are accepted and which error the others give; the claims are the reply's, times only when positive, and the raw ones exactly the remaining strings, null as empty |
| Introspection.KeysAreDigests | introspection/introspection.go:195-201 | Every key in the cache is the digest of a token the server was asked about |
| Introspection.HitExactly | introspection/introspection.go:195-233 | On a nondecreasing cache clock a call is answered from the cache exactly while the latest stored verdict of its token lasts |
| Introspection.RevocationIsDelayedExactly | introspection/introspection.go:195-215 | In every interleaving, a call for a revoked token is answered from the cache, with another answer than the server's, exactly while the latest stored verdict lasts |
| Introspection.RevocationIsDelayed | introspection/introspection.go:195-215 | The smallest such run: accepted once, revoked, and still accepted exactly while now < exp - leeway |
| Introspection.StartCall | introspection/introspection.go:190-201 | The first locked step: what it answers, and what the lookup leaves in the cache |
| Introspection.FinishCall | introspection/introspection.go:203-234 | The second: the verdict on the reply is returned, and stored exactly when it is accepted and expires; the returned claims stay apart from the cache |
| Introspection.Validate | introspection/introspection.go:190-235 | One call by itself over the heap cache: both steps in order, the second only after a miss |
| Introspection.MakeClaims | introspection/introspection.go:347-377 | Fresh claims with the mapped fields, times only when positive, and the remaining string members |
| Introspection.FillRaw | introspection/introspection.go:364-375 | The loop keeps exactly the string members (null as empty) that are not mapped or dropped |
| Introspection.AudienceContains | introspection/introspection.go:326-333 | Exact membership |
| TokenKey.KeysEqualExactly | exchange/exchanger.go:255-259 | For bar-free fields and non-empty space-free scopes, keys are equal exactly when the four fields agree and the scopes are permutations |
| TokenKey.UnsharedExactly | exchange/exchanger.go:255-259 | Every request with the same key, whatever its fields and scopes, agrees on the four fields and the joined sorted scopes, exactly when no field and no scope holds a bar |
| TokenKey.CachedUnsharedExactly | exchange/exchanger.go:84-91 | The same among cached requests, which have a subject: exactly when no field and no scope holds a bar, but for the subject's first character |
| TokenKey.CachedKeysCollide | exchange/exchanger.go:255-259 | Every request that fails this shares its key with a cached one for another subject, audience or token type |
| TokenKey.FieldsReadBack | exchange/exchanger.go:255-259 | For bar-free fields and any scopes, keys are equal exactly when the fields and the joined sorted scopes are |
| TokenKey.SameFieldAsksAlike | exchange/exchanger.go:111-113 | Requests with equal joined sorted scopes ask the server for the same scope words, even if some of their scopes contain spaces or are empty |
| TokenKey.BarsCollide | exchange/exchanger.go:255-259 | Every request with a bar in a field shares its key with a different one of the same scopes |
| TokenKey.ScopeBarsCollide | exchange/exchanger.go:255-259 | Every request with bar-free fields and a bar in a scope shares its key with one for another subject |
| TokenKey.ScopeBarExample | exchange/exchanger.go:255-259 | A concrete such pair, in which no text after the bar is a sorted list of words |
| TokenKey.SortIsSorted | exchange/exchanger.go:256-257 | Sorting yields a sorted permutation |
| TokenKey.SortedIsUnique | exchange/exchanger.go:256-257 | Two sorted permutations of one another are equal |
| Exchanger.ExchangeToken | exchange/exchanger.go:79-129 | Over the heap cache: contents, answer, posts and audit event are those of the model; a hit is a fresh copy, and a token that is stored is the returned object itself |
| Exchange.Do | exchange/exchanger.go:184-224 | The retry loop returns the verdict on the deciding reply and has sent exactly the modelled posts; its fall-through return is unreachable |
| Exchange.RetriedExactly | exchange/exchanger.go:184-224 | The form is posted again, with the server's nonce, exactly after a readable refusal below 500 with use_dpop_nonce and a nonce; the last reply decides |
| Exchange.VerdictIsExact | exchange/exchanger.go:208-249 | A reply yields a token exactly when it is a 200 with one, verbatim, a rejection with its code exactly when readable and below 500, else an outage |
| Exchange.TokenIsIssued | exchange/exchanger.go:119-128 | A token that is not from the cache is what the server granted on the request's form, verbatim |
| Exchange.ExchangeEventsMatch | exchange/exchanger.go:79-129 | One audit event per exchange, with the caller, the result and its reason; without a subject the cache is not touched |
| Exchange.FormOf | exchange/exchanger.go:93-117 | The form carries the request's fields, the access-token type in place of an empty subject token type and no other, and a scope that splits back into the requested list |
| Exchange.RedeemAssertion | exchange/exchanger.go:138-150 | An empty assertion is refused without a post, any other is one jwt-bearer request |
| Exchange.LegsAreOrdered | exchange/idjag.go:205-248 | For every server behaviour: at most two IdP posts, each a token exchange of the assertion into an ID-JAG for the configured audience, resource and scopes, without an actor; then at most two Resource AS posts, each redeeming a non-empty token that the IdP granted on such a request, with those scopes |
| Exchange.TokenIsRedeemed | exchange/idjag.go:219-247 | A token that is not from the cache is what the Resource AS granted for such an ID-JAG, verbatim, its lifetime counted from the second leg |
| Exchange.ProvidersShareExactly | exchange/idjag.go:210-213 | Providers with bar-free names use one key exactly for the same subject, audience and sorted scopes |
| Exchange.EventsMatchResults | exchange/idjag.go:205-287 | One audit event per acquisition, with the subject, the outcome and its reason, granted exactly when a token is returned and denied exactly on a server rejection; the cache gains at most the returned expiring token under its own key |
| Exchanger.DownstreamProvider.Provide | exchange/idjag.go:205-248 | Result, cache contents, wire trace and audit log change as the model says, and a token that is stored is the returned object itself |
| Exchanger.DownstreamProvider.RunLegs | exchange/idjag.go:219-241 | The second leg is entered only on success of the first and with its token; the wire trace grows by the modelled posts |
| Exchange.LifetimesFitExactly | exchange/exchanger.go:242-244 | A lifetime is added as given exactly up to 9223372036 seconds; the next one gives an expiry in the past |
| ExchangeRuns.HitProvenance | exchange/exchanger.go:79-129 | In every interleaving a token served from the cache is what the latest exchange with its key got from the server, with a non-empty access token and now < expiry - leeway |
| ExchangeRuns.CallersAreIsolated | exchange/exchanger.go:79-129 | ... and if nobody's fields hold a bar, that exchange was for the same subject, audience and token types and asked for the same scope words |
| ExchangeRuns.OwnCheckIsolates | exchange/exchanger.go:79-129 | ... as it was for any caller whose own request passes the check of `CachedUnsharedExactly`, whatever fields and scopes everyone else sends |
| ExchangeRuns.UncheckedCallerIsServed | exchange/exchanger.go:79-129 | For every caller that fails the check there is a request for another subject, audience or token type whose token, once issued, it is served while that lasts |
| ExchangeRuns.SharedKeyIsServed | exchange/exchanger.go:79-129 | After an exchange, any request with its key gets its token exactly while that lasts |
| ExchangeRuns.HitExactly | exchange/exchanger.go:85-128 | On a nondecreasing lookup clock a call is answered from the cache exactly while the latest token stored under its key lasts |
| ExchangeRuns.HitsIgnoreOtherFields | exchange/exchanger.go:85-91 | Resource, actor and subject token change neither whether a call hits nor what it then returns |
| ExchangeRuns.OtherResourceIsServed | exchange/exchanger.go:79-129 | After an exchange for one resource, one for another resource (which would send another form) gets its token exactly while that lasts |
| ExchangeRuns.SubjectsAreIsolated | exchange/idjag.go:205-248 | In every interleaving, for any names, a token found in the cache is the one the latest acquisition for the same subject minted, before expiry - leeway |
| ExchangeRuns.FoundExactly | exchange/idjag.go:210-217 | On a nondecreasing clock a token is found exactly while the latest expiring one acquired for the subject, by a provider that caches, is before expiry - leeway |
| ExchangeRuns.StoredTokensExpire | exchange/idjag.go:243-246 | In every interleaving only expiring tokens are in the cache |
| TokenCache.OwnMutationsAreInvisible | exchange/cache.go:35-63 | For any script of creations, stores, lookups and mutations in which callers mutate only tokens they made or got from `Get` and that are tied to no stored one since, each step leaves what a cache of values holds, and each hit hands out what that one holds |
| TokenCache.OwnStaysPrivate | exchange/cache.go:38-56 | The invariant behind it: no such token is an entry or shares a slice with one that is not such a token, through any stores and sharing |
| TokenCache.MutationsShowExactly | exchange/cache.go:59-63 | A mutation shows in the cache exactly when it changes an entry: overwritten fields, a new slice or a shared one only their own token, a written element every token with that slice, and each only if the value differs |
| TokenCache.RunScript | exchange/cache.go:35-63 | The heap run of any script of stores, lookups and mutations, of entries too, ends exactly where the value model does, sharing included |
| Exchanger.FirstCallerReachesNext | exchange/exchanger.go:124-128 | What the first caller writes into its token is what the next hit hands out |
| TokenCache.MemoryCache.Get | exchange/cache.go:38-56 | On the heap, a hit is a fresh copy with an equal value, slice included |
| TokenCache.MemoryCache.Set | exchange/cache.go:59-63 | On the heap, the caller's own object becomes the entry |
| Policy.Authorize | authorizer.go:27-113 | Running any tree allows exactly when the caller holds sufficient evidence: all required scopes, one of the listed ones, the very claim a leaf names with its value, a union over conjuncts, one alternative's; a denial has the code of the first conjunct to fail |
| Policy.RunPolicy | authorizer.go:27-113 | The loops and early exits decide as the tree's set-theoretic meaning, so the outcome depends only on the scope set and the raw claims |
| Policy.HoldsIsWarranted | authorizer.go:27-113 | That meaning holds exactly when such evidence is held |
| Policy.NecessaryEvidence | authorizer.go:27-113 | Without something that all sufficient evidence contains, a policy denies |
| Policy.LostClaimDenies | authorizer.go:69-91 | A claim leaf denies with forbidden when the claim is missing or has another value, and so does every conjunction that holds it |
| Policy.DenialIsBlamed | authorizer.go:27-113 | A denial carries insufficient_scope exactly when the first failing policy, looking into conjunctions, is a scope leaf, else forbidden |
| Policy.HoldsIsMonotone | authorizer.go:27-105 | More scopes and new raw claims never turn allow into deny |
| Policy.FirstDenial | authorizer.go:82-91 | A conjunction reports the code of the first conjunct to deny |
| Policy.ListedExactlyWhenCallable | transport/mcpauth/toolgate.go:137-158 | A tool is listed exactly when it is offered and a call to it would be granted |
| Policy.PagingCommutes | transport/mcpauth/toolgate.go:152-157 | Filtering page by page equals filtering the whole list |
| Policy.GateIsMonotone | transport/mcpauth/toolgate.go:162-177 | A caller with more scopes and claims keeps every granted call |
| Policy.CallGrantedExactly | transport/mcpauth/toolgate.go:76-95 | A call is granted exactly to a caller whose evidence suffices for the tool's own policy, or the default for an unlisted tool, where nil allows; the event names tool, caller and the code of the policy to blame |
| Policy.ListIsMonotone | transport/mcpauth/toolgate.go:137-158 | ... and sees every tool the other sees, in the same order |
| Policy.ToolGate.GateCall | transport/mcpauth/toolgate.go:76-95 | Passes a call on exactly when granted and records exactly one event with the decision, caller and tool; no caller, no call; parameters of another type pass unrecorded |
| Policy.ToolGate.FilterList | transport/mcpauth/toolgate.go:147-157 | The loop returns exactly the visible tools, none without a caller |
| Challenge.ChallengeIsParseable | transport/http/middleware.go:214-246 | For every error, URL and scope list a quoted-string parser (section 5.6.4 of RFC 9110) recovers exactly the scheme and the sanitised parameters |
| Challenge.ChallengeSays | transport/http/middleware.go:214-246 | The scheme and parameters that the parser reads for each code, spelled out |
| Challenge.ChallengeExample | transport/http/middleware.go:245 | The header text of one challenge, piece by piece |
| Challenge.ParsedErrorIsRegistered | transport/http/middleware.go:218-239 | What the parser reads off any challenge has at most one error, a registered code, and the DPoP scheme exactly with the DPoP codes |
| Challenge.PrintRoundTrip | transport/http/middleware.go:245 | Parsing inverts printing for any parameters with clean values |
| Challenge.BuildWWWAuthenticate | transport/http/middleware.go:214-246 | The case-by-case builder prints exactly the modelled scheme and parameters |
| Challenge.SanitizeQuoted | transport/http/middleware.go:266-276 | The byte loop equals the recursive filter, whose result is clean |
| Challenge.SanitizeIsFilter | transport/http/middleware.go:266-276 | Quotes, backslashes and control characters go, every other character stays in place |
| Challenge.SanitizeFixesExactlyClean | transport/http/middleware.go:266-276 | Sanitising leaves a string as it is exactly when it is clean |
| Challenge.SanitizeIsIdempotent | transport/http/middleware.go:266-276 | Sanitising twice is sanitising once |
| Challenge.TransportsPrintAlike | transport/mcpauth/challenge.go:26-32 | Both transports print the same challenge for both DPoP errors |
| Challenge.TransportsRefuseAlike | transport/mcpauth/challenge.go:112-124 | A DPoP refusal carries the same challenge, nonce and cache directive on both transports |
| Challenge.HttpRefusalExactly | transport/http/middleware.go:116-205 | The HTTP refusal sets content type, challenge and cache directive, a nonce exactly on a nonce challenge that has one, and nothing else |
| Challenge.InjectExactly | transport/mcpauth/challenge.go:112-136 | The writer adds the challenge to a 401 of a DPoP failure and a rotated nonce to a success, keeps a handler's own cache directive, and changes nothing else |
| Challenge.ChallengeWriter.WriteHeader | transport/mcpauth/challenge.go:95-101 | Headers are injected once, for the first status, and every status is passed on |
| Challenge.ChallengeWriter.Write | transport/mcpauth/challenge.go:105-110 | Every byte is passed on; a body without a status counts as 200, injected once |
| Scopes.SplitScopes | claims.go:125-139 | The index loop equals the recursive specification |
| Scopes.PiecesAreWords | claims.go:125-139 | Every piece is non-empty and space-free |
| Scopes.SplitInvertsJoin | claims.go:125-139 | Splitting the single-space join of any list of words returns the list |
| Scopes.SplitOfJoin | claims.go:125-139 | Splitting the join of any texts yields the pieces of each in turn |
| Scopes.SplitJoinSplit | claims.go:125-139 | Split-join-split equals split |

## Left out

- Dpop.NewVerifier: the default clock and the default replay cache on it are not part of the value; every clock reading is a parameter, and `SharedClock` is the assumption that both read one clock.
- ExchangeRuns.CallersAreIsolated: and the other run results of `ExchangeRuns.dfy` are about token values, so they hold for callers that do not change a token `Exchange` or `Provide` just obtained; `TokenCache.dfy` says what happens when they do.
- Exchange.Do: a reply's expires_in is any integer, where the source rejects one beyond int64 while decoding; saturating `time.Sub` at such distances is not modelled.
- RedisReplay.Store.SetNX: time-outs and logging are not modelled.
- HttpGate.ServedExactly: of the response, only the outcome, the error code and the nonce header are modelled.
- Dpop.StripsAlikeExactly: for texts that parse; one that does not is compared as it is.
- JWS and JWT parsing, signature verification, thumbprints, the JWKS cache and JSON decoding: foreign code, parameters here.
- `validator.go`, `multivalidator.go`, `verifier.go`: mostly library calls; the HTTP model takes the validator's verdict as given.
- `extractBearer`, `requestURL`, JSON error bodies, `setRetryAfter`: header and body plumbing.
- `NewNopReplayCache`, `AllowAll` and similar one-liners beyond what a theorem needs, and constructor validation of introspection and exchange configurations.
- The audit sinks, the OpenTelemetry adapter and event timestamps: an audit log is a sequence of events.
- `exchange/dpop.go`, client authenticators, `session_id.go`: cryptographic and header-setting wrappers; ids are arbitrary values.
- The MCP SDK types, context keys, requests that are not tool calls or lists, and the metadata handler.
