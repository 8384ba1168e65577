/**
 The HTTP middleware around the verifier: token, proof, rate limit, in that
 order, with the nonce challenge and nonce rotation of RFC 9449.  The bearer
 validator and the rate limiter are foreign; each request carries their verdicts.
 */
module HttpGate {
  import opened Base
  import opened Dpop
  import Replay
  import Nonce

  datatype Verdict = Refused(code: string) | Valid(jkt: string)

  datatype Request = Request(
    bearer: string,
    verdict: Verdict,                   // of extractBearer and the validator
    proofs: seq<string>, httpMethod: string, url: string,
    verifierNow: int, cacheNow: int,    // read by Enforce and by the replay cache
    rateAllowed: bool,
    issueNow: int, rand: Option<Nonce.Entropy>)   // for the nonce minted on the way out

  /** `nonce` is the DPoP-Nonce header, empty when absent. */
  datatype Response = Served(nonce: string) | Refusal(code: string, nonce: string)

  const USE_NONCE := "use_dpop_nonce"
  const INVALID_PROOF := "invalid_dpop_proof"
  const RATE_LIMITED := "rate_limit_exceeded"

  predicate IsChallenge(r: Response) {
    r.Refusal? && r.code == USE_NONCE
  }

  function IssueNonce(lib: Library, v: Verifier, now: int, rand: Option<Nonce.Entropy>): string {
    if v.nonce.None? then "" else Nonce.Issue(lib.codec, v.nonce.value, now, rand)
  }

  /** What a request puts before the verifier; one with a refused token presents nothing. */
  function PresentationOf(r: Request): Presentation {
    if r.verdict.Refused? then Presentation(Input([], "", "", "", ""), r.verifierNow, r.cacheNow)
    else Presentation(Input(r.proofs, r.httpMethod, r.url, r.bearer, r.verdict.jkt), r.verifierNow, r.cacheNow)
  }

  function Respond(lib: Library, v: Verifier, seen: Replay.Seen, r: Request): Response {
    if r.verdict.Refused? then Refusal(r.verdict.code, "")
    else match Answer(lib, v, seen, PresentationOf(r))
      case UseNonce => Refusal(USE_NONCE, IssueNonce(lib, v, r.issueNow, r.rand))
      case InvalidProof(_) => Refusal(INVALID_PROOF, "")
      case Granted =>
        if !r.rateAllowed then Refusal(RATE_LIMITED, "")
        else Served(IssueNonce(lib, v, r.issueNow, r.rand))
  }

  function Presentations(run: seq<Request>): (ps: seq<Presentation>)
    ensures |ps| == |run|
  {
    seq(|run|, i requires 0 <= i < |run| => PresentationOf(run[i]))
  }

  /** The response to request `i` of a run from a fresh cache. */
  function ResponseAt(lib: Library, v: Verifier, run: seq<Request>, i: nat): Response
    requires i < |run|
  {
    Respond(lib, v, StateAfter(lib, v, Presentations(run[..i])), run[i])
  }

  /** The middleware with or without a verifier; without one the token and the rate limit decide. */
  function HandledAt(lib: Library, dpop: Option<Verifier>, run: seq<Request>, i: nat): Response
    requires i < |run|
  {
    match dpop
    case Some(v) => ResponseAt(lib, v, run, i)
    case None =>
      if run[i].verdict.Refused? then Refusal(run[i].verdict.code, "")
      else if !run[i].rateAllowed then Refusal(RATE_LIMITED, "")
      else Served("")
  }

  /** A request is served exactly when its token, its proof (if one is demanded) and its rate limit all pass. */
  lemma ServedExactly(lib: Library, dpop: Option<Verifier>, run: seq<Request>, i: nat)
    requires i < |run|
    ensures HandledAt(lib, dpop, run, i).Served? <==>
            && run[i].verdict.Valid? && run[i].rateAllowed
            && (dpop.Some? ==> Answers(lib, dpop.value, Presentations(run))[i] == Granted)
    ensures run[i].verdict.Refused? ==> HandledAt(lib, dpop, run, i) == Refusal(run[i].verdict.code, "")
    ensures run[i].verdict.Valid? && dpop.None? ==>
              HandledAt(lib, dpop, run, i) ==
              if run[i].rateAllowed then Served("") else Refusal("rate_limit_exceeded", "")
  {
    if dpop.Some? {
      AnswerAt(lib, dpop.value, Presentations(run), i);
      assert Presentations(run)[..i] == Presentations(run[..i]);
    }
  }

  /** One proof, with claims `c`, signed by the key the token is bound to, for this method, URL and token. */
  ghost predicate MadeFor(lib: Library, v: Verifier, r: Request, c: Claims) {
    && r.verdict.Valid? && r.verdict.jkt != ""
    && exists proof, jws, jwk ::
      && r.proofs == [proof] && lib.parse(proof) == Some(jws) && jws.signatures == 1 && jws.typ == "dpop+jwt"
      && jws.alg in v.algs && jws.jwk == Some(jwk) && lib.isPrivateKey(jwk) == Some(false)
      && lib.verify(proof, jws.alg, jwk) && lib.decode(jws.payload) == Some(c)
      && lib.thumbprint(jwk) == Some(r.verdict.jkt)
      && c.jti != "" && c.htm != "" && c.htu != "" && c.iat != 0 && c.ath != ""
      && c.htm == r.httpMethod && StripURL(lib, c.htu) == StripURL(lib, r.url) && c.ath == lib.ath(r.bearer)
  }

  predicate OnTime(v: Verifier, r: Request, c: Claims) {
    c.iat * SECOND - v.leeway <= r.verifierNow <= c.iat * SECOND + v.leeway
  }

  predicate NonceGood(lib: Library, v: Verifier, r: Request, c: Claims) {
    v.nonce.Some? ==> c.nonce != "" && Nonce.Validate(lib.codec, v.nonce.value, c.nonce, r.verifierNow)
  }

  ghost predicate Passes(lib: Library, v: Verifier, r: Request, c: Claims) {
    MadeFor(lib, v, r, c) && OnTime(v, r, c) && NonceGood(lib, v, r, c)
  }

  lemma MadeForIsBound(lib: Library, v: Verifier, r: Request, c: Claims)
    ensures MadeFor(lib, v, r, c) <==> BoundToRequest(lib, v, PresentationOf(r).input, c)
  {
    if BoundToRequest(lib, v, PresentationOf(r).input, c) {
      assert r.proofs == [r.proofs[0]];
    }
  }

  /** The checks on a request are those the verifier makes on what it is given of it. */
  lemma PassesIsScreened(lib: Library, v: Verifier, r: Request, c: Claims)
    ensures Passes(lib, v, r, c) <==> Screen(lib, v, PresentationOf(r).input, r.verifierNow) == ToCache(c)
  {
    MadeForIsBound(lib, v, r, c);
    ScreeningIsReceiverChecks(lib, v, PresentationOf(r).input, r.verifierNow, c);
  }

  /** Request `j` used up a proof with claims `d`: it was served, or stopped by the rate limit only. */
  ghost predicate UsesUp(lib: Library, v: Verifier, run: seq<Request>, j: nat, d: Claims)
    requires j < |run|
  {
    Passes(lib, v, run[j], d) &&
    (ResponseAt(lib, v, run, j).Served? || ResponseAt(lib, v, run, j) == Refusal("rate_limit_exceeded", ""))
  }

  lemma UsesUpIsAccepted(lib: Library, v: Verifier, run: seq<Request>, j: nat, d: Claims)
    requires j < |run|
    ensures UsesUp(lib, v, run, j, d) <==> AcceptedWith(lib, v, Presentations(run), j, d)
  {
    PassesIsScreened(lib, v, run[j], d);
    AnswerAt(lib, v, Presentations(run), j);
    assert Presentations(run)[..j] == Presentations(run[..j]);
  }

  /** Every proof with the same jti|htu that an earlier request used up has expired by the cache's reading. */
  ghost predicate Unspent(lib: Library, v: Verifier, run: seq<Request>, i: nat, c: Claims)
    requires i < |run|
  {
    forall j: nat, d | j < i && UsesUp(lib, v, run, j, d) &&
      d.jti + "|" + StripURL(lib, d.htu) == c.jti + "|" + StripURL(lib, c.htu) ::
      d.iat * SECOND + v.leeway <= run[i].cacheNow
  }

  /** The replay cache's clock never runs backwards. */
  ghost predicate CacheOrdered(run: seq<Request>) {
    forall i, j :: 0 <= i < j < |run| ==> run[i].cacheNow <= run[j].cacheNow
  }

  lemma AcceptedIsUnspent(lib: Library, v: Verifier, run: seq<Request>, i: nat, c: Claims)
    requires i < |run| && CacheOrdered(run) && Passes(lib, v, run[i], c)
    ensures ProofAccepted(lib, v, Presentations(run), i) <==> Unspent(lib, v, run, i, c)
  {
    var ps := Presentations(run);
    PassesIsScreened(lib, v, run[i], c);
    forall j: nat, d | j < i ensures UsesUp(lib, v, run, j, d) <==> AcceptedWith(lib, v, ps, j, d) {
      UsesUpIsAccepted(lib, v, run, j, d);
    }
    AcceptedExactly(lib, v, ps, i, c);
  }

  /** What a valid token needs beside it: nothing for an unbound one in opportunistic mode, else an unspent proof. */
  ghost predicate Backed(lib: Library, v: Verifier, run: seq<Request>, i: nat)
    requires i < |run| && run[i].verdict.Valid?
  {
    if run[i].verdict.jkt == "" then v.mode == Opportunistic
    else exists c :: Passes(lib, v, run[i], c) && Unspent(lib, v, run, i, c)
  }

  lemma BackedIsGranted(lib: Library, v: Verifier, run: seq<Request>, i: nat)
    requires i < |run| && CacheOrdered(run) && run[i].verdict.Valid?
    ensures Answer(lib, v, StateAfter(lib, v, Presentations(run[..i])), PresentationOf(run[i])) == Granted <==>
            Backed(lib, v, run, i)
  {
    var ps, r := Presentations(run), run[i];
    AnswerAt(lib, v, ps, i);
    assert ps[..i] == Presentations(run[..i]);
    NoDowngrade(lib, v, StateAfter(lib, v, ps[..i]), ps[i]);
    forall c ensures Passes(lib, v, r, c) <==> Screen(lib, v, ps[i].input, r.verifierNow) == ToCache(c) {
      PassesIsScreened(lib, v, r, c);
    }
    forall c | Passes(lib, v, r, c) ensures ProofAccepted(lib, v, ps, i) <==> Unspent(lib, v, run, i, c) {
      AcceptedIsUnspent(lib, v, run, i, c);
    }
    if Screen(lib, v, ps[i].input, r.verifierNow).ToCache? {
      assert Passes(lib, v, r, Screen(lib, v, ps[i].input, r.verifierNow).claims);
    }
  }

  lemma ChallengedExactly(lib: Library, v: Verifier, run: seq<Request>, i: nat)
    requires i < |run| && run[i].verdict.Valid?
    ensures Answer(lib, v, StateAfter(lib, v, Presentations(run[..i])), PresentationOf(run[i])) == UseNonce <==>
            exists c :: MadeFor(lib, v, run[i], c) && OnTime(v, run[i], c) && !NonceGood(lib, v, run[i], c)
  {
    var r := run[i];
    forall c ensures MadeFor(lib, v, r, c) <==> BoundToRequest(lib, v, PresentationOf(r).input, c) {
      MadeForIsBound(lib, v, r, c);
    }
    ScreeningIsReceiverChecks(lib, v, PresentationOf(r).input, r.verifierNow, Claims("", "", "", 0, "", ""));
  }

  /**
   The whole protocol (sections 4.3, 7.2, 9 and 11.1 of RFC 9449), from the
   requests' own fields: in every run a valid bound token is served exactly on a
   proof that is made for this request, on time, with a good nonce and unspent,
   and within the rate limit; every other response says what failed first.
   */
  lemma ResponseExactly(lib: Library, v: Verifier, run: seq<Request>, i: nat)
    requires i < |run| && CacheOrdered(run) && run[i].verdict.Valid?
    ensures var r := run[i];
            var minted := if v.nonce.None? then "" else Nonce.Issue(lib.codec, v.nonce.value, r.issueNow, r.rand);
            ResponseAt(lib, v, run, i) ==
            if exists c :: MadeFor(lib, v, r, c) && OnTime(v, r, c) && !NonceGood(lib, v, r, c)
            then Refusal("use_dpop_nonce", minted)
            else if !Backed(lib, v, run, i) then Refusal("invalid_dpop_proof", "")
            else if !r.rateAllowed then Refusal("rate_limit_exceeded", "")
            else Served(minted)
  {
    BackedIsGranted(lib, v, run, i);
    ChallengedExactly(lib, v, run, i);
  }

  /** Requests that carry `proof` for a bound token and reach the handler. */
  ghost function ServedWith(lib: Library, v: Verifier, run: seq<Request>, proof: string): set<nat> {
    set i: nat | i < |run| && ResponseAt(lib, v, run, i).Served? &&
                 run[i].verdict.Valid? && run[i].verdict.jkt != "" && run[i].proofs == [proof]
  }

  /** A proof that served a request serves a later one only across its closing instant. */
  lemma SecondServiceStraddles(lib: Library, v: Verifier, run: seq<Request>, proof: string, i: nat, j: nat)
    requires CacheOrdered(run) && i < j && i in ServedWith(lib, v, run, proof) && j in ServedWith(lib, v, run, proof)
    ensures exists c :: Passes(lib, v, run[j], c) && run[j].verifierNow <= c.iat * SECOND + v.leeway <= run[j].cacheNow
  {
    BackedIsGranted(lib, v, run, i);
    BackedIsGranted(lib, v, run, j);
    var c :| Passes(lib, v, run[i], c) && Unspent(lib, v, run, i, c);
    var d :| Passes(lib, v, run[j], d) && Unspent(lib, v, run, j, d);
    assert UsesUp(lib, v, run, i, c) && c == d;
  }

  /** End to end: unless a presentation straddles the proof's closing instant, one proof serves one request. */
  lemma OneProofServesOnce(lib: Library, v: Verifier, run: seq<Request>, proof: string)
    requires CacheOrdered(run)
    requires forall r, c | r in run && Passes(lib, v, r, c) && r.proofs == [proof] ::
               !(r.verifierNow <= c.iat * SECOND + v.leeway <= r.cacheNow)
    ensures |ServedWith(lib, v, run, proof)| <= 1
  {
    var served := ServedWith(lib, v, run, proof);
    forall i, j | i in served && j in served && i < j ensures false {
      SecondServiceStraddles(lib, v, run, proof, i, j);
    }
    if served != {} {
      var i :| i in served;
      assert served == {i};
    }
  }

  /** Every nonce handed out, on a challenge or by rotation, validates throughout its window. */
  lemma NoncesHandedOutValidate(lib: Library, v: Verifier, run: seq<Request>, i: nat, t: int)
    requires i < |run| && v.nonce.Some? && Nonce.Lawful(lib.codec)
    requires ResponseAt(lib, v, run, i).nonce != "" && Nonce.UnixSecond(run[i].issueNow) <= Nonce.MAX_INT64
    ensures Nonce.Validate(lib.codec, v.nonce.value, ResponseAt(lib, v, run, i).nonce, t) <==>
            var second := run[i].issueNow - run[i].issueNow % SECOND;
            second - 5 * SECOND <= t <= second + v.nonce.value.lifetime
  {
    Nonce.IssueValidateRoundTrip(lib.codec, v.nonce.value, v.nonce.value, run[i].issueNow, run[i].rand.value, t);
  }

  /** Request `j` repeats request `i`'s proof claims, re-signed with `nonce` added: even the jti is the same. */
  ghost predicate RetriesWith(lib: Library, v: Verifier, first: Request, again: Request, c: Claims, nonce: string) {
    again.verdict == first.verdict && MadeFor(lib, v, first, c) && MadeFor(lib, v, again, c.(nonce := nonce))
  }

  /**
   Section 9 of RFC 9449: one retry completes a nonce challenge.  Whatever other
   requests come between, the same claims plus the challenge's nonce are served
   while iat is fresh, at most lifetime - 1s has passed since the nonce was
   issued, and no request used up a proof with this jti|htu before.
   */
  lemma OneRetryCompletes(lib: Library, v: Verifier, run: seq<Request>, i: nat, j: nat, c: Claims)
    requires i < j < |run| && v.nonce.Some? && Nonce.Lawful(lib.codec)
    requires IsChallenge(ResponseAt(lib, v, run, i)) && ResponseAt(lib, v, run, i).nonce != ""
    requires RetriesWith(lib, v, run[i], run[j], c, ResponseAt(lib, v, run, i).nonce)
    requires Nonce.UnixSecond(run[i].issueNow) <= Nonce.MAX_INT64
    requires run[i].issueNow <= run[j].verifierNow <= run[i].issueNow + v.nonce.value.lifetime - SECOND
    requires OnTime(v, run[j], c) && run[j].rateAllowed
    requires forall k: nat, d | k < j && UsesUp(lib, v, run, k, d) ::
               d.jti + "|" + StripURL(lib, d.htu) != c.jti + "|" + StripURL(lib, c.htu)
    ensures ResponseAt(lib, v, run, j).Served?
  {
    var nonce := ResponseAt(lib, v, run, i).nonce;
    var ps, again := Presentations(run), c.(nonce := nonce);
    Nonce.IssueValidateRoundTrip(
      lib.codec, v.nonce.value, v.nonce.value, run[i].issueNow, run[i].rand.value, run[j].verifierNow);
    assert Passes(lib, v, run[j], again);
    PassesIsScreened(lib, v, run[j], again);
    forall k: nat, d | k < j && AcceptedWith(lib, v, ps, k, d)
      ensures d.jti + "|" + StripURL(lib, d.htu) != again.jti + "|" + StripURL(lib, again.htu)
    {
      UsesUpIsAccepted(lib, v, run, k, d);
    }
    NewKeyIsGranted(lib, v, ps, j, again);
    ServedExactly(lib, Some(v), run, j);
  }
}
