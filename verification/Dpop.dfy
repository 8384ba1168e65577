/**
 The DPoP resource-server protocol of RFC 9449: `NewVerifier`, `checkProof` and
 `Enforce`, and what they guarantee over unbounded runs.

 Parsing, signatures, hashing and URL handling are library code, passed in as
 functions of their inputs; nothing else is assumed of them.
 */
module Dpop {
  import opened Base
  import opened Replay
  import Nonce

  const DEFAULT_LEEWAY := 60 * SECOND

  datatype Mode = Opportunistic | Require

  datatype Claims = Claims(jti: string, htm: string, htu: string, iat: int, ath: string, nonce: string)

  datatype Jws = Jws(signatures: nat, typ: string, alg: string, jwk: Option<string>, payload: string)

  /** A parsed URL: everything before the query, a bare trailing '?', the query, the fragment. */
  datatype Url = Url(base: string, forceQuery: bool, rawQuery: string, fragment: string)

  datatype Library = Library(
    parse: string -> Option<Jws>,
    isPrivateKey: string -> Option<bool>,       // None: the key kind is not asymmetric
    verify: (string, string, string) -> bool,   // proof, algorithm, key
    decode: string -> Option<Claims>,
    parseBase: string -> Option<string>,        // scheme, authority and path, normalised; None: url.Parse fails
    ath: string -> string,                      // base64url of SHA-256
    thumbprint: string -> Option<string>,       // base64url of the RFC 7638 thumbprint
    codec: Nonce.Codec)

  datatype Verifier = Verifier(mode: Mode, leeway: int, algs: set<string>, nonce: Option<Nonce.SignedNonce>)

  datatype Input = Input(proofs: seq<string>, httpMethod: string, url: string, accessToken: string, boundJKT: string)

  /** One request: `verifierNow` is read by `Enforce`, `cacheNow` later, inside the cache's lock. */
  datatype Presentation = Presentation(input: Input, verifierNow: int, cacheNow: int)

  /** The constant reasons of a rejection, for logs only. */
  datatype Reason =
    | NoProof | ManyProofs | Unbound
    | Malformed | NotOneSignature | WrongType | AlgNotAllowed | MissingJwk | JwkNotPublic | SignatureInvalid
    | PayloadInvalid | MissingClaim | HtmMismatch | HtuMismatch | IatOutsideWindow
    | AthMismatch | ThumbprintError | KeyMismatch | Replayed

  datatype Outcome = Granted | InvalidProof(reason: Reason) | UseNonce

  // ---- Construction ----

  const NEVER_ALLOWED := {"none", "HS256", "HS384", "HS512"}
  const DEFAULT_ALGS := ["ES256", "ES384", "ES512", "PS256", "PS384", "PS512", "EdDSA"]

  /** The listed algorithms, never none nor a symmetric one. */
  function AllowedAlgs(algs: seq<string>): set<string> {
    (set a <- algs) - NEVER_ALLOWED
  }

  method AlgSet(algs: seq<string>) returns (allowed: set<string>)
    ensures allowed == AllowedAlgs(algs)
  {
    allowed := {};
    for i := 0 to |algs|
      invariant allowed == AllowedAlgs(algs[..i])
    {
      assert algs[..i + 1] == algs[..i] + [algs[i]];
      if algs[i] !in NEVER_ALLOWED {
        allowed := allowed + {algs[i]};
      }
    }
    assert algs[..|algs|] == algs;
  }

  /** A leeway below one second and an empty allowlist fall back to the defaults. */
  method NewVerifier(mode: Mode, leeway: int, algAllow: seq<string>, nonce: Option<Nonce.SignedNonce>)
    returns (v: Verifier)
    ensures v.leeway == (if leeway < SECOND then 60 * SECOND else leeway)
    ensures algAllow == [] ==> v.algs == {"ES256", "ES384", "ES512", "PS256", "PS384", "PS512", "EdDSA"}
    ensures algAllow != [] ==> v.algs == (set a <- algAllow) - {"none", "HS256", "HS384", "HS512"}
    ensures v.mode == mode && v.nonce == nonce
  {
    var algs := if algAllow == [] then DEFAULT_ALGS else algAllow;
    var allowed := AlgSet(algs);
    v := Verifier(mode, if leeway < SECOND then DEFAULT_LEEWAY else leeway, allowed, nonce);
  }

  // ---- checkProof ----

  /** The text before the first `c`. */
  function Before(s: string, c: char): string {
    if s == "" || s[0] == c then "" else [s[0]] + Before(s[1..], c)
  }

  function AfterFirst(s: string, c: char): string {
    if s == "" then "" else if s[0] == c then s[1..] else AfterFirst(s[1..], c)
  }

  /** url.Parse notes a lone '?' at the end instead of an empty query. */
  predicate ForceQuery(raw: string) {
    var rest := Before(raw, '#');
    rest != "" && Last(rest) == '?' && '?' !in Init(rest)
  }

  function ParseURL(lib: Library, raw: string): Option<Url> {
    match lib.parseBase(raw)
    case None => None
    case Some(base) =>
      Some(Url(base, ForceQuery(raw), AfterFirst(Before(raw, '#'), '?'), AfterFirst(raw, '#')))
  }

  function FormatURL(u: Url): string {
    u.base + (if u.forceQuery || u.rawQuery != "" then "?" + u.rawQuery else "") +
    (if u.fragment != "" then "#" + u.fragment else "")
  }

  /** Drops query and fragment; an unparseable URL is returned raw. */
  function StripURL(lib: Library, raw: string): string {
    match ParseURL(lib, raw)
    case None => raw
    case Some(u) => FormatURL(u.(rawQuery := "", fragment := ""))
  }

  /**
   Two URLs strip alike exactly when their bases agree and both or neither end
   in a lone '?': that mark survives, because only the query text is cleared.
   */
  lemma StripsAlikeExactly(lib: Library, a: string, b: string)
    requires lib.parseBase(a).Some? && lib.parseBase(b).Some?
    requires '?' !in lib.parseBase(a).value && '?' !in lib.parseBase(b).value
    ensures StripURL(lib, a) == StripURL(lib, b) <==>
            lib.parseBase(a) == lib.parseBase(b) && ForceQuery(a) == ForceQuery(b)
  {
    var x, y := lib.parseBase(a).value, lib.parseBase(b).value;
    assert x + "" + "" == x && y + "" + "" == y && x + ("?" + "") + "" == x + "?" && y + ("?" + "") + "" == y + "?";
    assert Last(x + "?") == '?' && Last(y + "?") == '?';
    assert Init(x + "?") == x && Init(y + "?") == y;
    assert x != "" ==> Last(x) in x;
    assert y != "" ==> Last(y) in y;
  }

  /** Any query after a text without '?' and '#' is ignored, but a lone '?' after it is not. */
  lemma LoneQuestionMarkMismatches(lib: Library, text: string, query: string)
    requires '#' !in text && '?' !in text && '#' !in query && query != ""
    requires lib.parseBase(text) == lib.parseBase(text + "?") == lib.parseBase(text + "?" + query) == Some(text)
    ensures StripURL(lib, text + "?" + query) == StripURL(lib, text) == text
    ensures StripURL(lib, text + "?") == text + "?" != text
  {
    HashFree(text);
    HashFree(text + "?");
    HashFree(text + "?" + query);
    assert Init(text + "?") == text && Last(text + "?") == '?';
    assert Init(text + "?" + query)[|text|] == '?';
    assert text != "" ==> Last(text) in text;
    assert text + "" + "" == text && text + ("?" + "") + "" == text + "?";
    assert |text + "?"| == |text| + 1;
  }

  /** A concrete pair, for any parser that gives the base that url.Parse gives. */
  lemma LoneQuestionMarkExample(lib: Library)
    requires var base := "https://h/p";
             lib.parseBase(base) == lib.parseBase(base + "?") == lib.parseBase(base + "?" + "x") == Some(base)
    ensures StripURL(lib, "https://h/p" + "?") != StripURL(lib, "https://h/p")
  {
    LoneQuestionMarkMismatches(lib, "https://h/p", "x");
  }

  lemma {:induction false} HashFree(s: string)
    requires '#' !in s
    ensures Before(s, '#') == s
  {
    if s != "" {
      HashFree(s[1..]);
    }
  }

  predicate Fresh(v: Verifier, iat: int, now: int) {
    !(iat * SECOND < now - v.leeway || iat * SECOND > now + v.leeway)
  }

  predicate NonceSatisfied(lib: Library, v: Verifier, nonce: string, now: int) {
    v.nonce.None? || !(nonce == "" || !Nonce.Validate(lib.codec, v.nonce.value, nonce, now))
  }

  /** The verdict of every check before the replay cache is consulted. */
  datatype Screening = Answered(outcome: Outcome) | ToCache(claims: Claims)

  function Refuse(reason: Reason): Screening {
    Answered(InvalidProof(reason))
  }

  /** The checks of `checkProof`, in order, up to the replay check. */
  function ScreenProof(lib: Library, v: Verifier, proof: string, input: Input, now: int): Screening {
    match lib.parse(proof)
    case None => Refuse(Malformed)
    case Some(jws) =>
      if jws.signatures != 1 then Refuse(NotOneSignature)
      else if jws.typ != "dpop+jwt" then Refuse(WrongType)
      else if jws.alg !in v.algs then Refuse(AlgNotAllowed)
      else if jws.jwk.None? then Refuse(MissingJwk)
      else if lib.isPrivateKey(jws.jwk.value) != Some(false) then Refuse(JwkNotPublic)
      else if !lib.verify(proof, jws.alg, jws.jwk.value) then Refuse(SignatureInvalid)
      else match lib.decode(jws.payload)
        case None => Refuse(PayloadInvalid)
        case Some(c) => ScreenClaims(lib, v, c, jws.jwk.value, input, now)
  }

  /** The claim checks, reached only once the signature has been verified. */
  function ScreenClaims(lib: Library, v: Verifier, c: Claims, jwk: string, input: Input, now: int): Screening {
    if c.jti == "" || c.htm == "" || c.htu == "" || c.iat == 0 || c.ath == "" then
      Refuse(MissingClaim)
    else if c.htm != input.httpMethod then Refuse(HtmMismatch)
    else if StripURL(lib, c.htu) != StripURL(lib, input.url) then Refuse(HtuMismatch)
    else if !Fresh(v, c.iat, now) then Refuse(IatOutsideWindow)
    else if c.ath != lib.ath(input.accessToken) then Refuse(AthMismatch)
    else if lib.thumbprint(jwk).None? then Refuse(ThumbprintError)
    else if lib.thumbprint(jwk).value != input.boundJKT then Refuse(KeyMismatch)
    else if !NonceSatisfied(lib, v, c.nonce, now) then Answered(UseNonce)
    else ToCache(c)
  }

  /** The mode table of `Enforce`, up to the replay check. */
  function Screen(lib: Library, v: Verifier, input: Input, now: int): Screening {
    if input.boundJKT != "" then
      if |input.proofs| == 1 then ScreenProof(lib, v, input.proofs[0], input, now)
      else if |input.proofs| == 0 then Refuse(NoProof)
      else Refuse(ManyProofs)
    else if v.mode == Require then Refuse(Unbound)
    else Answered(Granted)
  }

  // ---- Runs ----

  function CacheKey(lib: Library, c: Claims): string {
    c.jti + "|" + StripURL(lib, c.htu)
  }

  function Expiry(v: Verifier, c: Claims): int {
    c.iat * SECOND + v.leeway
  }

  /** The replay-cache call a presentation makes, if it gets that far. */
  function CallOf(lib: Library, v: Verifier, p: Presentation): Option<Call> {
    match Screen(lib, v, p.input, p.verifierNow)
    case Answered(_) => None
    case ToCache(c) => Some(Call(CacheKey(lib, c), Expiry(v, c), p.cacheNow))
  }

  function Answer(lib: Library, v: Verifier, seen: Seen, p: Presentation): Outcome {
    match Screen(lib, v, p.input, p.verifierNow)
    case Answered(outcome) => outcome
    case ToCache(c) =>
      if Live(seen, CacheKey(lib, c), p.cacheNow) then InvalidProof(Replayed) else Granted
  }

  function TraceOf(lib: Library, v: Verifier, run: seq<Presentation>): (trace: Trace)
    ensures |trace| == |run|
  {
    seq(|run|, i requires 0 <= i < |run| => CallOf(lib, v, run[i]))
  }

  /** The map after a run that starts from an empty cache. */
  function StateAfter(lib: Library, v: Verifier, run: seq<Presentation>): Seen {
    if run == [] then map[] else Step(StateAfter(lib, v, Init(run)), CallOf(lib, v, Last(run)))
  }

  function Answers(lib: Library, v: Verifier, run: seq<Presentation>): (answers: seq<Outcome>)
    ensures |answers| == |run|
  {
    if run == [] then []
    else Answers(lib, v, Init(run)) + [Answer(lib, v, StateAfter(lib, v, Init(run)), Last(run))]
  }

  /** The cache's clock never runs backwards, in the order in which presentations take its lock. */
  ghost predicate CacheClockOrdered(run: seq<Presentation>) {
    forall i, j :: 0 <= i < j < |run| ==> run[i].cacheNow <= run[j].cacheNow
  }

  /** One shared clock: in addition, `Enforce` reads it before the cache does. */
  ghost predicate SharedClock(run: seq<Presentation>) {
    CacheClockOrdered(run) && forall p <- run :: p.verifierNow <= p.cacheNow
  }

  /** Presentation `i` carried a proof that was accepted and recorded. */
  predicate ProofAccepted(lib: Library, v: Verifier, run: seq<Presentation>, i: nat)
    requires i < |run|
  {
    Screen(lib, v, run[i].input, run[i].verifierNow).ToCache? && Answers(lib, v, run)[i] == Granted
  }

  /** ... and `c` are its claims. */
  predicate AcceptedWith(lib: Library, v: Verifier, run: seq<Presentation>, i: nat, c: Claims)
    requires i < |run|
  {
    ProofAccepted(lib, v, run, i) && Screen(lib, v, run[i].input, run[i].verifierNow) == ToCache(c)
  }

  lemma {:induction false} AnswerAt(lib: Library, v: Verifier, run: seq<Presentation>, i: nat)
    requires i < |run|
    ensures Answers(lib, v, run)[i] == Answer(lib, v, StateAfter(lib, v, run[..i]), run[i])
    decreases |run|
  {
    if i < |run| - 1 {
      AnswerAt(lib, v, Init(run), i);
      assert Init(run)[..i] == run[..i];
    } else {
      assert Init(run) == run[..i];
    }
  }

  lemma {:induction false} StateIsTraceState(lib: Library, v: Verifier, run: seq<Presentation>, n: nat)
    requires n <= |run|
    ensures StateAfter(lib, v, run[..n]) == After(TraceOf(lib, v, run)[..n])
    decreases n
  {
    if n > 0 {
      StateIsTraceState(lib, v, run, n - 1);
      assert Init(run[..n]) == run[..n - 1];
      AfterStep(TraceOf(lib, v, run), n - 1);
    }
  }

  /** Accepted proofs are exactly the replay cache's first sights. */
  lemma AcceptedIsFirstSight(lib: Library, v: Verifier, run: seq<Presentation>, i: nat)
    requires i < |run|
    ensures ProofAccepted(lib, v, run, i) <==> FirstSight(TraceOf(lib, v, run), i)
  {
    AnswerAt(lib, v, run, i);
    StateIsTraceState(lib, v, run, i);
  }

  // ---- The receiver checks, independently of their order ----

  /** Signed under an allowed algorithm by the public key the token is bound to, for this very request. */
  ghost predicate BoundToRequest(lib: Library, v: Verifier, input: Input, c: Claims) {
    && input.boundJKT != "" && |input.proofs| == 1
    && exists jws, jwk ::
      && lib.parse(input.proofs[0]) == Some(jws) && jws.signatures == 1 && jws.typ == "dpop+jwt"
      && jws.alg in v.algs && jws.jwk == Some(jwk) && lib.isPrivateKey(jwk) == Some(false)
      && lib.verify(input.proofs[0], jws.alg, jwk)
      && lib.decode(jws.payload) == Some(c)
      && lib.thumbprint(jwk) == Some(input.boundJKT)
      && c.jti != "" && c.htm != "" && c.htu != "" && c.iat != 0 && c.ath != ""
      && c.htm == input.httpMethod && StripURL(lib, c.htu) == StripURL(lib, input.url)
      && c.ath == lib.ath(input.accessToken)
  }

  /**
   The cache is consulted exactly for proofs that are bound to the request, no
   further than the leeway from the clock and carry a nonce that validates, when
   nonces are used; the nonce challenge goes out exactly to proofs that fail on
   the nonce alone.
   */
  lemma ScreeningIsReceiverChecks(lib: Library, v: Verifier, input: Input, now: int, c: Claims)
    ensures Screen(lib, v, input, now) == ToCache(c) <==>
            && BoundToRequest(lib, v, input, c)
            && c.iat * SECOND - v.leeway <= now <= c.iat * SECOND + v.leeway
            && (v.nonce.Some? ==> c.nonce != "" && Nonce.Validate(lib.codec, v.nonce.value, c.nonce, now))
    ensures Screen(lib, v, input, now) == Answered(UseNonce) <==>
            exists c' ::
              && BoundToRequest(lib, v, input, c')
              && c'.iat * SECOND - v.leeway <= now <= c'.iat * SECOND + v.leeway
              && v.nonce.Some? && !(c'.nonce != "" && Nonce.Validate(lib.codec, v.nonce.value, c'.nonce, now))
  {
  }

  /**
   No downgrade (section 7.2 of RFC 9449): a bound token is granted only on a
   fresh proof bound to the request; an unbound one exactly in opportunistic
   mode, and without touching the cache.
   */
  lemma NoDowngrade(lib: Library, v: Verifier, seen: Seen, p: Presentation)
    ensures p.input.boundJKT != "" && Answer(lib, v, seen, p) == Granted ==>
              exists c :: BoundToRequest(lib, v, p.input, c) && Fresh(v, c.iat, p.verifierNow)
    ensures p.input.boundJKT == "" ==>
              (Answer(lib, v, seen, p) == Granted <==> v.mode == Opportunistic) && CallOf(lib, v, p) == None
  {
    if p.input.boundJKT != "" && Answer(lib, v, seen, p) == Granted {
      var c := Screen(lib, v, p.input, p.verifierNow).claims;
      ScreeningIsReceiverChecks(lib, v, p.input, p.verifierNow, c);
    }
  }

  // ---- Single use (section 11.1 of RFC 9449) ----

  /** The claims a proof string carries, when it parses and decodes. */
  predicate Carries(lib: Library, p: Presentation, proof: string, c: Claims) {
    p.input.proofs == [proof] && lib.parse(proof).Some? && lib.decode(lib.parse(proof).value.payload) == Some(c)
  }

  /**
   A screened presentation is granted exactly when every earlier accepted proof
   with the same jti|htu (the same proof, a reused jti, bars that fall alike) has
   expired by the cache's reading, and else refused as a replay.
   */
  lemma AcceptedExactly(lib: Library, v: Verifier, run: seq<Presentation>, i: nat, c: Claims)
    requires i < |run| && CacheClockOrdered(run)
    requires Screen(lib, v, run[i].input, run[i].verifierNow) == ToCache(c)
    ensures ProofAccepted(lib, v, run, i) <==>
            forall j, d | 0 <= j < i && AcceptedWith(lib, v, run, j, d) &&
              d.jti + "|" + StripURL(lib, d.htu) == c.jti + "|" + StripURL(lib, c.htu) ::
              d.iat * SECOND + v.leeway <= run[i].cacheNow
    ensures Answers(lib, v, run)[i] == if ProofAccepted(lib, v, run, i) then Granted else InvalidProof(Replayed)
  {
    var trace := TraceOf(lib, v, run);
    AnswerAt(lib, v, run, i);
    SeenBeforeIsHistory(trace, i);
    forall j | 0 <= j <= i ensures ProofAccepted(lib, v, run, j) <==> FirstSight(trace, j) {
      AcceptedIsFirstSight(lib, v, run, j);
    }
    if !FirstSight(trace, i) {
      var j :| 0 <= j < i && FirstSight(trace, j) && trace[j].value.key == trace[i].value.key &&
               run[i].cacheNow < trace[j].value.exp;
      var d := Screen(lib, v, run[j].input, run[j].verifierNow).claims;
      assert AcceptedWith(lib, v, run, j, d);
    }
  }

  /**
   A proof accepted at `i` can be accepted again at a later `j` only if the
   verifier read its clock by iat + leeway and the cache read its own from
   iat + leeway on.
   */
  lemma SecondAcceptanceNeedsBoundary(
    lib: Library, v: Verifier, run: seq<Presentation>, proof: string, c: Claims, i: nat, j: nat)
    requires i < j < |run| && CacheClockOrdered(run)
    requires Carries(lib, run[i], proof, c) && Carries(lib, run[j], proof, c)
    requires ProofAccepted(lib, v, run, i) && ProofAccepted(lib, v, run, j)
    ensures run[j].verifierNow <= c.iat * SECOND + v.leeway <= run[j].cacheNow
  {
    assert AcceptedWith(lib, v, run, i, c);
    assert Screen(lib, v, run[j].input, run[j].verifierNow) == ToCache(c);
    AcceptedExactly(lib, v, run, j, c);
  }

  /**
   Re-presenting an accepted proof succeeds exactly from iat + leeway on, when
   no other proof with its joined key was accepted with a later expiry.
   */
  lemma SecondAcceptanceExactly(
    lib: Library, v: Verifier, run: seq<Presentation>, c: Claims, i: nat, j: nat)
    requires i < j < |run| && CacheClockOrdered(run) && ProofAccepted(lib, v, run, i)
    requires AcceptedWith(lib, v, run, i, c) && Screen(lib, v, run[j].input, run[j].verifierNow) == ToCache(c)
    requires forall k, d | 0 <= k < j && AcceptedWith(lib, v, run, k, d) &&
               d.jti + "|" + StripURL(lib, d.htu) == c.jti + "|" + StripURL(lib, c.htu) :: d.iat <= c.iat
    ensures ProofAccepted(lib, v, run, j) <==> c.iat * SECOND + v.leeway <= run[j].cacheNow
  {
    AcceptedExactly(lib, v, run, j, c);
  }

  /** The presentation straddles the closing instant of the proof's own window. */
  predicate StraddlesExpiry(v: Verifier, c: Claims, p: Presentation) {
    p.verifierNow <= Expiry(v, c) <= p.cacheNow
  }

  ghost function AcceptancesOf(lib: Library, v: Verifier, run: seq<Presentation>, proof: string): set<nat> {
    set i: nat | i < |run| && run[i].input.proofs == [proof] && ProofAccepted(lib, v, run, i)
  }

  /** Unless some presentation of it straddles the boundary, a proof is accepted at most once. */
  lemma SingleUse(lib: Library, v: Verifier, run: seq<Presentation>, proof: string)
    requires CacheClockOrdered(run)
    requires forall p, c | p in run && Carries(lib, p, proof, c) :: !StraddlesExpiry(v, c, p)
    ensures |AcceptancesOf(lib, v, run, proof)| <= 1
  {
    var accepted := AcceptancesOf(lib, v, run, proof);
    forall i, j | i in accepted && j in accepted && i < j ensures false {
      var c := lib.decode(lib.parse(proof).value.payload).value;
      assert Carries(lib, run[j], proof, c);
      SecondAcceptanceNeedsBoundary(lib, v, run, proof, c, i, j);
    }
    if accepted != {} {
      var i :| i in accepted;
      assert accepted == {i};
    }
  }

  /**
   The boundary is real: any proof that passes the screen and meets the cache
   at iat + leeway or later is accepted on every presentation, at once.
   */
  lemma BoundaryAdmitsReplay(lib: Library, v: Verifier, p: Presentation, c: Claims)
    requires Screen(lib, v, p.input, p.verifierNow) == ToCache(c) && Expiry(v, c) <= p.cacheNow
    ensures Answers(lib, v, [p, p]) == [Granted, Granted]
  {
  }

  /** A concrete witness, with both clocks reading exactly iat + leeway. */
  lemma BoundaryReplayExists() returns (lib: Library, v: Verifier, p: Presentation)
    ensures p.verifierNow == p.cacheNow && v.leeway == DEFAULT_LEEWAY
    ensures Answers(lib, v, [p, p]) == [Granted, Granted] && p.input.boundJKT != ""
  {
    var c := Claims("jti", "POST", "https://h/p", 1000, "ath", "");
    lib := Library(
      _ => Some(Jws(1, "dpop+jwt", "ES256", Some("key"), "payload")), _ => Some(false), (_, _, _) => true,
      _ => Some(c), _ => None, _ => "ath", _ => Some("jkt"),
      Nonce.Codec((_, _) => [], _ => "", _ => None));
    v := Verifier(Opportunistic, DEFAULT_LEEWAY, AllowedAlgs(DEFAULT_ALGS), None);
    assert "ES256" in DEFAULT_ALGS by { assert DEFAULT_ALGS[0] == "ES256"; }
    var closing := Expiry(v, c);
    p := Presentation(Input(["proof"], "POST", "https://h/p", "token", "jkt"), closing, closing);
    BoundaryAdmitsReplay(lib, v, p, c);
  }

  /** A screened proof whose jti|htu was never accepted before is granted, whatever the clocks did. */
  lemma NewKeyIsGranted(lib: Library, v: Verifier, run: seq<Presentation>, i: nat, c: Claims)
    requires i < |run| && Screen(lib, v, run[i].input, run[i].verifierNow) == ToCache(c)
    requires forall j: nat, d | j < i && AcceptedWith(lib, v, run, j, d) ::
               d.jti + "|" + StripURL(lib, d.htu) != c.jti + "|" + StripURL(lib, c.htu)
    ensures Answers(lib, v, run)[i] == Granted
  {
    var trace := TraceOf(lib, v, run);
    AnswerAt(lib, v, run, i);
    StateIsTraceState(lib, v, run, i);
    if CacheKey(lib, c) in After(trace[..i]) {
      EntriesAreFirstSights(trace, i, CacheKey(lib, c));
      var j: nat :| j < i && FirstSight(trace, j) && trace[j].value.key == CacheKey(lib, c);
      AcceptedIsFirstSight(lib, v, run, j);
      assert AcceptedWith(lib, v, run, j, Screen(lib, v, run[j].input, run[j].verifierNow).claims);
    }
  }

  // ---- Which proofs count as the same ----

  predicate SameUse(lib: Library, c: Claims, d: Claims) {
    c.jti == d.jti && StripURL(lib, c.htu) == StripURL(lib, d.htu)
  }

  /** No bar in the jti, but for its first character, or in the URL. */
  predicate OwnUse(jti: string, htu: string)
    requires jti != ""
  {
    BarFree(jti[1..]) && BarFree(htu)
  }

  /** A text with one bar can be read in one way only. */
  lemma OneBar(a: string, x: string, b: string, y: string)
    requires BarFree(a) && BarFree(x) && a + "|" + x == b + "|" + y
    ensures a == b && x == y
  {
    var text := a + "|" + x;
    assert text[|b|] == '|' && text[|a|] == '|';
    assert forall k :: 0 <= k < |text| && text[k] == '|' ==> k == |a|;
    assert text[..|a|] == a && text[..|b|] == b;
    assert text[|a| + 1..] == x && text[|b| + 1..] == y;
  }

  /** A jti and URL have their cache entry to themselves exactly when no second bar lets another pair read alike. */
  lemma UseIsOwnExactly(jti: string, htu: string)
    requires jti != ""
    ensures OwnUse(jti, htu) <==>
            forall jti', htu' | jti' != "" && jti' + "|" + htu' == jti + "|" + htu :: jti' == jti && htu' == htu
  {
    if OwnUse(jti, htu) {
      forall jti', htu' | jti' != "" && jti' + "|" + htu' == jti + "|" + htu ensures jti' == jti && htu' == htu {
        assert (jti' + "|" + htu')[1..] == jti'[1..] + "|" + htu' && (jti + "|" + htu)[1..] == jti[1..] + "|" + htu;
        OneBar(jti[1..], htu, jti'[1..], htu');
        assert (jti' + "|" + htu')[0] == jti'[0] && (jti + "|" + htu)[0] == jti[0];
        assert jti == [jti[0]] + jti[1..] && jti' == [jti'[0]] + jti'[1..];
      }
    } else if !BarFree(jti[1..]) {
      var p, q := FirstBarSplit(jti[1..]);
      var front, rest := [jti[0]] + p, q + "|" + htu;
      assert jti == front + "|" + q;
      assert front + "|" + rest == jti + "|" + htu && |front| < |jti|;
    } else {
      var p, q := FirstBarSplit(htu);
      assert (jti + "|" + p) + "|" + q == jti + "|" + htu && |jti + "|" + p| > |jti|;
    }
  }

  /**
   Whatever the clocks did, a screened proof is granted if none with its jti and
   URL was accepted before, provided its own pass the check or no jti has a bar.
   */
  lemma NewUseIsGranted(lib: Library, v: Verifier, run: seq<Presentation>, i: nat, c: Claims)
    requires i < |run| && Screen(lib, v, run[i].input, run[i].verifierNow) == ToCache(c)
    requires OwnUse(c.jti, StripURL(lib, c.htu)) ||
             (BarFree(c.jti) && forall j: nat, d | j < i && AcceptedWith(lib, v, run, j, d) :: BarFree(d.jti))
    requires forall j: nat, d | j < i && AcceptedWith(lib, v, run, j, d) :: !SameUse(lib, d, c)
    ensures Answers(lib, v, run)[i] == Granted
  {
    forall j: nat, d | j < i && AcceptedWith(lib, v, run, j, d)
      ensures d.jti + "|" + StripURL(lib, d.htu) != c.jti + "|" + StripURL(lib, c.htu)
    {
      ScreeningIsReceiverChecks(lib, v, run[j].input, run[j].verifierNow, d);
      if d.jti + "|" + StripURL(lib, d.htu) == c.jti + "|" + StripURL(lib, c.htu) {
        if OwnUse(c.jti, StripURL(lib, c.htu)) {
          UseIsOwnExactly(c.jti, StripURL(lib, c.htu));
        } else {
          FirstBar(d.jti, c.jti, StripURL(lib, d.htu), StripURL(lib, c.htu));
        }
      }
    }
    NewKeyIsGranted(lib, v, run, i, c);
  }

  /** On a nondecreasing cache clock it is refused while an accepted one with its jti and URL has not expired. */
  lemma SpentUseIsRefused(lib: Library, v: Verifier, run: seq<Presentation>, i: nat, c: Claims, j: nat, d: Claims)
    requires j < i < |run| && CacheClockOrdered(run)
    requires Screen(lib, v, run[i].input, run[i].verifierNow) == ToCache(c)
    requires AcceptedWith(lib, v, run, j, d) && SameUse(lib, c, d) && run[i].cacheNow < d.iat * SECOND + v.leeway
    ensures Answers(lib, v, run)[i] == InvalidProof(Replayed)
  {
    AcceptedExactly(lib, v, run, i, c);
  }

  /** Without the check, a never-used jti can be refused: here "a" after "a|b", with URLs that do not parse. */
  lemma BarredUseExample() returns (lib: Library, v: Verifier, first: Presentation, again: Presentation)
    ensures first.input.proofs != again.input.proofs && first.input.url != again.input.url
    ensures Answers(lib, v, [first, again]) == [Granted, InvalidProof(Replayed)]
  {
    var c, d := Claims("a|b", "POST", "c", 1000, "ath", ""), Claims("a", "POST", "b|c", 1000, "ath", "");
    lib := Library(
      proof => Some(Jws(1, "dpop+jwt", "ES256", Some("key"), proof)), _ => Some(false), (_, _, _) => true,
      payload => Some(if payload == "first" then c else d), _ => None, _ => "ath", _ => Some("jkt"),
      Nonce.Codec((_, _) => [], _ => "", _ => None));
    v := Verifier(Opportunistic, DEFAULT_LEEWAY, AllowedAlgs(DEFAULT_ALGS), None);
    assert "ES256" in DEFAULT_ALGS by { assert DEFAULT_ALGS[0] == "ES256"; }
    var now := 1000 * SECOND;
    first := Presentation(Input(["first"], "POST", "c", "token", "jkt"), now, now);
    again := Presentation(Input(["again"], "POST", "b|c", "token", "jkt"), now, now);
    assert "a|b" + "|" + "c" == "a" + "|" + "b|c";
    var run := [first, again];
    NewKeyIsGranted(lib, v, run, 0, c);
    assert AcceptedWith(lib, v, run, 0, c);
    AcceptedExactly(lib, v, run, 1, d);
    assert Answers(lib, v, run) == [Granted, InvalidProof(Replayed)];
  }

  // ---- Rejections leave no trace ----

  /** Deleting any set of rejected presentations leaves every other answer, and the cache, unchanged. */
  lemma {:induction false} RejectionsLeaveNoTrace(lib: Library, v: Verifier, run: seq<Presentation>, keep: seq<bool>)
    requires |keep| == |run|
    requires forall i :: 0 <= i < |run| && Answers(lib, v, run)[i] == Granted ==> keep[i]
    ensures Answers(lib, v, Select(run, keep)) == Select(Answers(lib, v, run), keep)
    ensures StateAfter(lib, v, Select(run, keep)) == StateAfter(lib, v, run)
    decreases |run|
  {
    if run != [] {
      var n := |run| - 1;
      var answers := Answers(lib, v, run);
      assert Init(answers) == Answers(lib, v, Init(run));
      forall i | 0 <= i < n && Answers(lib, v, Init(run))[i] == Granted ensures Init(keep)[i] {
        assert answers[i] == Granted;
      }
      RejectionsLeaveNoTrace(lib, v, Init(run), Init(keep));
      var kept := Select(Init(run), Init(keep));
      if Last(keep) {
        assert Init(kept + [Last(run)]) == kept;
      } else {
        assert answers[n] != Granted;
        assert kept + [] == kept;
        assert Select(Init(answers), Init(keep)) + [] == Select(Init(answers), Init(keep));
      }
    }
  }

  // ---- Bounded memory ----

  /** The proofs accepted with a verifier reading in the 2 x leeway ending at `end`. */
  ghost function AcceptedInWindow(lib: Library, v: Verifier, run: seq<Presentation>, end: int): set<nat> {
    set i: nat | i < |run| && ProofAccepted(lib, v, run, i) && end - 2 * v.leeway < run[i].verifierNow <= end
  }

  ghost predicate LastAcceptance(lib: Library, v: Verifier, run: seq<Presentation>, last: nat) {
    last < |run| && ProofAccepted(lib, v, run, last) &&
    forall j: nat :: last < j < |run| ==> !ProofAccepted(lib, v, run, j)
  }

  function Readings(run: seq<Presentation>): seq<int> {
    seq(|run|, i requires 0 <= i < |run| => run[i].verifierNow)
  }

  lemma RunIsShortLived(lib: Library, v: Verifier, run: seq<Presentation>)
    requires SharedClock(run)
    ensures Ordered(TraceOf(lib, v, run)) && ShortLived(TraceOf(lib, v, run), Readings(run), 2 * v.leeway)
  {
  }

  lemma WindowsAgree(lib: Library, v: Verifier, run: seq<Presentation>, last: nat)
    requires LastInsertion(TraceOf(lib, v, run), |run|, last)
    ensures LastAcceptance(lib, v, run, last) && TraceOf(lib, v, run)[last].value.now == run[last].cacheNow
    ensures FirstSightsInWindow(TraceOf(lib, v, run), Readings(run), 2 * v.leeway, run[last].cacheNow) ==
            AcceptedInWindow(lib, v, run, run[last].cacheNow)
  {
    forall i: nat | i < |run| ensures ProofAccepted(lib, v, run, i) <==> FirstSight(TraceOf(lib, v, run), i) {
      AcceptedIsFirstSight(lib, v, run, i);
    }
  }

  /**
   With one shared clock the map never holds more than the larger of 1024 and
   the number of proofs accepted in the 2 x leeway ending at the last insertion.
   */
  lemma MemoryIsBounded(lib: Library, v: Verifier, run: seq<Presentation>)
    requires SharedClock(run)
    ensures |StateAfter(lib, v, run)| <= 1024 ||
            exists last: nat :: LastAcceptance(lib, v, run, last) &&
              |StateAfter(lib, v, run)| <= |AcceptedInWindow(lib, v, run, run[last].cacheNow)|
  {
    var trace := TraceOf(lib, v, run);
    assert run[..|run|] == run && trace[..|run|] == trace;
    StateIsTraceState(lib, v, run, |run|);
    RunIsShortLived(lib, v, run);
    MapFitsWindow(trace, Readings(run), 2 * v.leeway);
    if |After(trace)| > SWEEP_THRESHOLD {
      var last: nat :| LastInsertion(trace, |run|, last) &&
        |After(trace)| <= |FirstSightsInWindow(trace, Readings(run), 2 * v.leeway, trace[last].value.now)|;
      WindowsAgree(lib, v, run, last);
    }
  }

  // ---- Enforce itself ----

  /** `Enforce` over the in-memory cache; `cacheNow` is what the cache's clock reads if it is reached. */
  method Enforce(lib: Library, v: Verifier, replay: MemoryReplayCache, p: Presentation) returns (outcome: Outcome)
    modifies replay
    ensures outcome == Answer(lib, v, old(replay.seen), p)
    ensures replay.seen == Step(old(replay.seen), CallOf(lib, v, p))
  {
    match Screen(lib, v, p.input, p.verifierNow)
    case Answered(o) =>
      outcome := o;
    case ToCache(c) =>
      var replayed := replay.SeenBefore(c.jti, StripURL(lib, c.htu), c.iat * SECOND + v.leeway, p.cacheNow);
      outcome := if replayed then InvalidProof(Replayed) else Granted;
  }
}
