/**
 WWW-Authenticate challenges: the printers of both transports, against an
 independent parser for quoted-string parameters (section 5.6.4 of RFC 9110).
 Strings stand for the header's bytes.
 */
module Challenge {
  import opened Base
  import opened Scopes

  // ---- sanitizeQuoted ----

  /** Characters that may not stand in a quoted-string as they are. */
  predicate Unsafe(c: char) {
    c == '"' || c == '\\' || c < ' ' || c == '\U{7f}'
  }

  predicate Clean(s: string) {
    forall i :: 0 <= i < |s| ==> !Unsafe(s[i])
  }

  function Sanitize(s: string): (clean: string)
    ensures Clean(clean)
  {
    if s == "" then "" else (if Unsafe(s[0]) then "" else [s[0]]) + Sanitize(s[1..])
  }

  lemma SanitizeFrom(s: string, i: nat)
    requires i < |s|
    ensures Sanitize(s[i..]) == (if Unsafe(s[i]) then "" else [s[i]]) + Sanitize(s[i + 1..])
  {
  }

  method SanitizeQuoted(s: string) returns (out: string)
    ensures out == Sanitize(s)
  {
    out := "";
    for i := 0 to |s|
      invariant out + Sanitize(s[i..]) == Sanitize(s)
    {
      SanitizeFrom(s, i);
      if Unsafe(s[i]) {
        continue;
      }
      out := out + [s[i]];
    }
  }

  lemma {:induction false} CleanIsKept(s: string)
    requires Clean(s)
    ensures Sanitize(s) == s
  {
    if s != "" {
      assert !Unsafe(s[0]);
      CleanIsKept(s[1..]);
      assert s == [s[0]] + s[1..];
    }
  }

  /** Sanitising changes exactly the strings that are not clean. */
  lemma SanitizeFixesExactlyClean(s: string)
    ensures Sanitize(s) == s <==> Clean(s)
  {
    if Clean(s) {
      CleanIsKept(s);
    }
  }

  /** Character by character: quotes, backslashes and control characters go, everything else stays in place. */
  lemma {:induction false} SanitizeIsFilter(s: string, c: char, t: string)
    ensures Sanitize(s + [c] + t) ==
            Sanitize(s) + (if c == '"' || c == '\\' || c < ' ' || c == '\U{7f}' then "" else [c]) + Sanitize(t)
  {
    if s == "" {
      assert s + [c] + t == [c] + t && ([c] + t)[1..] == t;
    } else {
      assert (s + [c] + t)[1..] == s[1..] + [c] + t;
      SanitizeIsFilter(s[1..], c, t);
    }
  }

  lemma SanitizeIsIdempotent(s: string)
    ensures Sanitize(Sanitize(s)) == Sanitize(s)
  {
    SanitizeFixesExactlyClean(Sanitize(s));
  }

  // ---- Printing ----

  datatype Param = Param(name: string, value: string)

  function Render(p: Param): string {
    p.name + "=\"" + p.value + "\""
  }

  function RenderAll(params: seq<Param>): (rendered: seq<string>)
    ensures |rendered| == |params|
  {
    seq(|params|, i requires 0 <= i < |params| => Render(params[i]))
  }

  function Print(scheme: string, params: seq<Param>): string {
    scheme + " " + Join(RenderAll(params), ", ")
  }

  const INVALID_TOKEN := "invalid_token"
  const EXPIRED_TOKEN := "expired_token"
  const INSUFFICIENT_SCOPE := "insufficient_scope"
  const INVALID_DPOP_PROOF := "invalid_dpop_proof"
  const USE_DPOP_NONCE := "use_dpop_nonce"

  const REALM := Param("realm", "mcp")

  function SchemeOf(code: string): string {
    if code == INVALID_DPOP_PROOF || code == USE_DPOP_NONCE then "DPoP" else "Bearer"
  }

  /** The error parameters for a code; codes without a registered parameter add none. */
  function ErrorParams(code: string, scopes: seq<string>): seq<Param> {
    if code == INVALID_TOKEN then [Param("error", "invalid_token")]
    else if code == EXPIRED_TOKEN then
      [Param("error", "invalid_token"), Param("error_description", "the access token expired")]
    else if code == INSUFFICIENT_SCOPE then
      [Param("error", "insufficient_scope")] +
      if |scopes| > 0 then [Param("scope", Sanitize(Join(scopes, " ")))] else []
    else if code == INVALID_DPOP_PROOF then [Param("error", "invalid_dpop_proof")]
    else if code == USE_DPOP_NONCE then [Param("error", "use_dpop_nonce")]
    else []
  }

  function MetadataParams(url: string): seq<Param> {
    if url == "" then [] else [Param("resource_metadata", Sanitize(url))]
  }

  function ParamsOf(code: string, url: string, scopes: seq<string>): seq<Param> {
    [REALM] + ErrorParams(code, scopes) + MetadataParams(url)
  }

  const REGISTERED := {"invalid_token", "insufficient_scope", "invalid_dpop_proof", "use_dpop_nonce"}
  const DPOP_ERRORS := {"invalid_dpop_proof", "use_dpop_nonce"}

  /** transport/http: case by case, appending rendered parameters. */
  method BuildWWWAuthenticate(code: string, url: string, scopes: seq<string>) returns (header: string)
    ensures header == Print(SchemeOf(code), ParamsOf(code, url, scopes))
  {
    var scheme := "Bearer";
    var params := [Render(REALM)];
    if code == INVALID_TOKEN {
      params := params + [Render(Param("error", "invalid_token"))];
    } else if code == EXPIRED_TOKEN {
      params := params + [Render(Param("error", "invalid_token")),
                          Render(Param("error_description", "the access token expired"))];
    } else if code == INSUFFICIENT_SCOPE {
      params := params + [Render(Param("error", "insufficient_scope"))];
      if |scopes| > 0 {
        var scope := SanitizeQuoted(Join(scopes, " "));
        params := params + [Render(Param("scope", scope))];
      }
    } else if code == INVALID_DPOP_PROOF {
      scheme := "DPoP";
      params := params + [Render(Param("error", "invalid_dpop_proof"))];
    } else if code == USE_DPOP_NONCE {
      scheme := "DPoP";
      params := params + [Render(Param("error", "use_dpop_nonce"))];
    }
    assert params == RenderAll([REALM] + ErrorParams(code, scopes));
    if url != "" {
      var metadata := SanitizeQuoted(url);
      params := params + [Render(Param("resource_metadata", metadata))];
    }
    assert params == RenderAll(ParamsOf(code, url, scopes));
    header := scheme + " " + Join(params, ", ");
  }

  /** transport/mcpauth: the same challenge, put together separately. */
  function DpopChallenge(code: string, url: string): string {
    var params := [Render(REALM), Render(Param("error", code))] +
                  if url != "" then [Render(Param("resource_metadata", Sanitize(url)))] else [];
    "DPoP" + " " + Join(params, ", ")
  }

  // ---- Parsing ----

  /** Splits at the first `c`, which is dropped. */
  function Cut(s: string, c: char): Option<(string, string)> {
    if s == "" then None
    else if s[0] == c then Some(("", s[1..]))
    else match Cut(s[1..], c)
      case None => None
      case Some((before, after)) => Some(([s[0]] + before, after))
  }

  /** The inside of a quoted-string, quoted-pairs resolved, and what follows its closing quote. */
  function Unquote(s: string): (r: Option<(string, string)>)
    ensures r.Some? ==> |r.value.1| < |s|
  {
    if s == "" then None
    else if s[0] == '"' then Some(("", s[1..]))
    else if s[0] == '\\' && |s| == 1 then None
    else
      var c, rest := if s[0] == '\\' then s[1] else s[0], if s[0] == '\\' then s[2..] else s[1..];
      match Unquote(rest)
      case None => None
      case Some((value, after)) => Some(([c] + value, after))
  }

  lemma {:induction false} CutShrinks(s: string, c: char)
    ensures Cut(s, c).Some? ==> |Cut(s, c).value.1| < |s|
  {
    if s != "" && s[0] != c {
      CutShrinks(s[1..], c);
    }
  }

  function ParseParams(s: string): Option<seq<Param>>
    decreases |s|
  {
    CutShrinks(s, '=');
    match Cut(s, '=')
    case None => None
    case Some((name, quoted)) =>
      if quoted == "" || quoted[0] != '"' then None
      else match Unquote(quoted[1..])
        case None => None
        case Some((value, after)) =>
          if after == "" then Some([Param(name, value)])
          else if !(", " <= after) then None
          else match ParseParams(after[2..])
            case None => None
            case Some(params) => Some([Param(name, value)] + params)
  }

  function Parse(s: string): Option<(string, seq<Param>)> {
    match Cut(s, ' ')
    case None => None
    case Some((scheme, rest)) =>
      match ParseParams(rest)
      case None => None
      case Some(params) => Some((scheme, params))
  }

  // ---- Parsing inverts printing ----

  lemma {:induction false} CutAt(before: string, c: char, after: string)
    requires c !in before
    ensures Cut(before + [c] + after, c) == Some((before, after))
  {
    var s := before + [c] + after;
    if before == "" {
      assert s[1..] == after;
    } else {
      assert s[1..] == before[1..] + [c] + after;
      CutAt(before[1..], c, after);
      assert [before[0]] + before[1..] == before;
    }
  }

  lemma {:induction false} UnquoteClean(value: string, after: string)
    requires Clean(value)
    ensures Unquote(value + "\"" + after) == Some((value, after))
  {
    var s := value + "\"" + after;
    if value == "" {
      assert s[1..] == after;
    } else {
      assert s[0] == value[0] && s[1..] == value[1..] + "\"" + after;
      UnquoteClean(value[1..], after);
      assert [value[0]] + value[1..] == value;
    }
  }

  predicate Printable(p: Param) {
    '=' !in p.name && Clean(p.value)
  }

  lemma ParseFirst(p: Param, after: string)
    requires Printable(p) && (after == "" || ", " <= after)
    ensures ParseParams(Render(p) + after) ==
            if after == "" then Some([p])
            else if ParseParams(after[2..]).None? then None
            else Some([p] + ParseParams(after[2..]).value)
  {
    var tail := p.value + "\"" + after;
    assert Render(p) + after == p.name + ['='] + ("\"" + tail);
    CutAt(p.name, '=', "\"" + tail);
    assert ("\"" + tail)[1..] == tail;
    UnquoteClean(p.value, after);
  }

  lemma JoinFirst(params: seq<Param>)
    requires |params| > 1
    ensures Join(RenderAll(params), ", ") == Render(params[0]) + (", " + Join(RenderAll(params[1..]), ", "))
  {
    assert RenderAll(params)[1..] == RenderAll(params[1..]);
  }

  lemma {:induction false} ParamsRoundTrip(params: seq<Param>)
    requires params != [] && forall p <- params :: Printable(p)
    ensures ParseParams(Join(RenderAll(params), ", ")) == Some(params)
    decreases |params|
  {
    if |params| == 1 {
      ParseFirst(params[0], "");
      assert Render(params[0]) + "" == Render(params[0]);
      assert [params[0]] == params;
    } else {
      var rest := Join(RenderAll(params[1..]), ", ");
      JoinFirst(params);
      ParseFirst(params[0], ", " + rest);
      assert (", " + rest)[2..] == rest;
      ParamsRoundTrip(params[1..]);
      assert [params[0]] + params[1..] == params;
    }
  }

  lemma PrintRoundTrip(scheme: string, params: seq<Param>)
    requires ' ' !in scheme && params != [] && forall p <- params :: Printable(p)
    ensures Parse(Print(scheme, params)) == Some((scheme, params))
  {
    var rest := Join(RenderAll(params), ", ");
    assert Print(scheme, params) == scheme + [' '] + rest;
    CutAt(scheme, ' ', rest);
    ParamsRoundTrip(params);
  }

  lemma NamesHaveNoEquals()
    ensures '=' !in "realm" && '=' !in "error" && '=' !in "error_description"
    ensures '=' !in "scope" && '=' !in "resource_metadata"
  {
  }

  lemma LiteralsAreClean()
    ensures Clean("mcp") && Clean("invalid_token") && Clean("the access token expired")
    ensures Clean("insufficient_scope") && Clean("invalid_dpop_proof") && Clean("use_dpop_nonce")
  {
  }

  lemma ParamsArePrintable(code: string, url: string, scopes: seq<string>)
    ensures forall p <- ParamsOf(code, url, scopes) :: Printable(p)
  {
    NamesHaveNoEquals();
    LiteralsAreClean();
    assert forall p <- ErrorParams(code, scopes) :: Printable(p);
    assert forall p <- MetadataParams(url) :: Printable(p);
  }

  /** For every error, URL and scope list, a parser recovers exactly the scheme and the sanitised parameters. */
  lemma ChallengeIsParseable(code: string, url: string, scopes: seq<string>)
    ensures Parse(Print(SchemeOf(code), ParamsOf(code, url, scopes))) ==
            Some((SchemeOf(code), ParamsOf(code, url, scopes)))
  {
    ParamsArePrintable(code, url, scopes);
    PrintRoundTrip(SchemeOf(code), ParamsOf(code, url, scopes));
  }

  /** What a client reads off each challenge, spelled out. */
  lemma ChallengeSays(code: string, url: string, scopes: seq<string>)
    ensures var metadata := if url == "" then [] else [Param("resource_metadata", Sanitize(url))];
            var scope := if scopes == [] then [] else [Param("scope", Sanitize(Join(scopes, " ")))];
            var dpop := code == "invalid_dpop_proof" || code == "use_dpop_nonce";
            var error :=
              if dpop || code == "invalid_token" then [Param("error", code)]
              else if code == "expired_token" then
                [Param("error", "invalid_token"), Param("error_description", "the access token expired")]
              else if code == "insufficient_scope" then [Param("error", code)] + scope
              else [];
            Parse(Print(SchemeOf(code), ParamsOf(code, url, scopes))) ==
            Some((if dpop then "DPoP" else "Bearer", [Param("realm", "mcp")] + error + metadata))
  {
    ChallengeIsParseable(code, url, scopes);
  }

  /** One of them, as it goes out. */
  lemma ChallengeExample()
    ensures Print("DPoP", [REALM, Param("error", USE_DPOP_NONCE)]) ==
            "DPoP" + " " + ("realm=\"" + "mcp" + "\"" + ", " + ("error=\"" + "use_dpop_nonce" + "\""))
  {
    var realm, error := REALM, Param("error", USE_DPOP_NONCE);
    var rendered := RenderAll([realm, error]);
    assert rendered == [Render(realm), Render(error)] && rendered[1..] == [Render(error)];
    assert Join(rendered, ", ") == Render(realm) + ", " + Render(error);
    assert "realm" + "=\"" == "realm=\"" && "error" + "=\"" == "error=\"";
  }

  /** What a client reads off any challenge: at most one error, a registered one, and DPoP exactly with its codes. */
  lemma ParsedErrorIsRegistered(code: string, url: string, scopes: seq<string>)
    ensures var parsed := Parse(Print(SchemeOf(code), ParamsOf(code, url, scopes)));
            && parsed.Some? && var (scheme, params) := parsed.value;
            && (forall i, j | 0 <= i < j < |params| :: params[i].name == "error" ==> params[j].name != "error")
            && (forall p <- params :: p.name == "error" ==> p.value in REGISTERED)
            && (scheme == "DPoP" <==> exists p <- params :: p.name == "error" && p.value in DPOP_ERRORS)
  {
    ChallengeIsParseable(code, url, scopes);
    var params := ParamsOf(code, url, scopes);
    assert |params| > 1 ==> params[1] in params;
  }

  /** Both transports print the same challenge for both DPoP errors. */
  lemma TransportsPrintAlike(code: string, url: string, scopes: seq<string>)
    requires code == INVALID_DPOP_PROOF || code == USE_DPOP_NONCE
    ensures DpopChallenge(code, url) == Print(SchemeOf(code), ParamsOf(code, url, scopes))
  {
    assert RenderAll(ParamsOf(code, url, scopes)) ==
           [Render(REALM), Render(Param("error", code))] +
           if url != "" then [Render(Param("resource_metadata", Sanitize(url)))] else [];
  }

  // ---- The response headers of a DPoP refusal ----

  type Headers = map<string, string>

  const WWW_AUTHENTICATE := "WWW-Authenticate"
  const CACHE_CONTROL := "Cache-Control"
  const DPOP_NONCE := "DPoP-Nonce"
  const CONTENT_TYPE := "Content-Type"

  function WithNonce(h: Headers, nonce: string): Headers {
    if nonce == "" then h else h[DPOP_NONCE := nonce]
  }

  /** transport/http: `nonce` is what `IssueNonce` returned, consulted only for a nonce challenge. */
  function HttpRefusal(h: Headers, code: string, url: string, scopes: seq<string>, nonce: string): Headers {
    (if code == USE_DPOP_NONCE then WithNonce(h, nonce) else h)
      [CONTENT_TYPE := "application/json"]
      [WWW_AUTHENTICATE := Print(SchemeOf(code), ParamsOf(code, url, scopes))]
      [CACHE_CONTROL := "no-store"]
  }

  /** What transport/http adds to any refusal, and nothing else changes. */
  lemma HttpRefusalExactly(h: Headers, code: string, url: string, scopes: seq<string>, nonce: string)
    ensures var h' := HttpRefusal(h, code, url, scopes, nonce);
            var rest := {"Content-Type", "WWW-Authenticate", "Cache-Control", "DPoP-Nonce"};
            && "Content-Type" in h' && h'["Content-Type"] == "application/json"
            && "WWW-Authenticate" in h' && h'["WWW-Authenticate"] == Print(SchemeOf(code), ParamsOf(code, url, scopes))
            && "Cache-Control" in h' && h'["Cache-Control"] == "no-store"
            && (if code == "use_dpop_nonce" && nonce != "" then "DPoP-Nonce" in h' && h'["DPoP-Nonce"] == nonce
                else "DPoP-Nonce" in h' <==> "DPoP-Nonce" in h)
            && h' - rest == h - rest
  {
  }

  /** How the verifier classified the request: the code of its DPoP failure, if any. */
  type Classification = Option<string>

  /** transport/mcpauth: what the writer does to the headers just before `status` goes out. */
  function Inject(h: Headers, failure: Classification, nonceConfigured: bool, url: string, nonce: string, status: int)
    : Headers
  {
    if failure.Some? && status == 401 then
      var challenged := h[WWW_AUTHENTICATE := DpopChallenge(failure.value, url)][CACHE_CONTROL := "no-store"];
      if failure.value == USE_DPOP_NONCE then WithNonce(challenged, nonce) else challenged
    else if 200 <= status < 300 && nonceConfigured && nonce != "" then
      var rotated := WithNonce(h, nonce);
      if CACHE_CONTROL !in h || h[CACHE_CONTROL] == "" then rotated[CACHE_CONTROL := "no-store"] else rotated
    else h
  }

  /** The challenge, the nonce and the cache directive of a DPoP refusal do not depend on the transport. */
  lemma TransportsRefuseAlike(
    h: Headers, h': Headers, code: string, url: string, scopes: seq<string>,
    nonceConfigured: bool, nonce: string, name: string)
    requires code == INVALID_DPOP_PROOF || code == USE_DPOP_NONCE
    requires DPOP_NONCE !in h && DPOP_NONCE !in h'
    requires name in {WWW_AUTHENTICATE, CACHE_CONTROL, DPOP_NONCE}
    ensures var http := HttpRefusal(h, code, url, scopes, nonce);
            var mcp := Inject(h', Some(code), nonceConfigured, url, nonce, 401);
            (name in http <==> name in mcp) && (name in http ==> http[name] == mcp[name])
  {
    TransportsPrintAlike(code, url, scopes);
  }

  /**
   What the writer adds: the challenge, and a nonce if one is asked for, to a 401
   of its own making; a rotated nonce to a success, not to be cached unless the
   handler said otherwise; nothing to anything else.
   */
  lemma InjectExactly(
    h: Headers, failure: Classification, nonceConfigured: bool, url: string, nonce: string, status: int)
    ensures var h' := Inject(h, failure, nonceConfigured, url, nonce, status);
            var asked := failure == Some("use_dpop_nonce");
            && (failure.Some? && status == 401 ==>
                  && "WWW-Authenticate" in h' && h'["WWW-Authenticate"] == DpopChallenge(failure.value, url)
                  && "Cache-Control" in h' && h'["Cache-Control"] == "no-store"
                  && (asked && nonce != "" ==> "DPoP-Nonce" in h' && h'["DPoP-Nonce"] == nonce)
                  && (!asked || nonce == "" ==> ("DPoP-Nonce" in h' <==> "DPoP-Nonce" in h))
                  && h' - {"WWW-Authenticate", "Cache-Control", "DPoP-Nonce"} ==
                     h - {"WWW-Authenticate", "Cache-Control", "DPoP-Nonce"})
            && (200 <= status < 300 && nonceConfigured && nonce != "" ==>
                  && "DPoP-Nonce" in h' && h'["DPoP-Nonce"] == nonce && "Cache-Control" in h'
                  && h'["Cache-Control"] == (if "Cache-Control" in h && h["Cache-Control"] != "" then h["Cache-Control"]
                                             else "no-store")
                  && h' - {"Cache-Control", "DPoP-Nonce"} == h - {"Cache-Control", "DPoP-Nonce"})
            && (!(failure.Some? && status == 401) && !(200 <= status < 300 && nonceConfigured && nonce != "") ==>
                  h' == h)
  {
  }

  /** Wraps the SDK's response writer; `statuses` are the WriteHeader calls passed on to it. */
  class ChallengeWriter {
    const url: string
    const nonceConfigured: bool
    var failure: Classification
    var headers: Headers
    var wroteHeader: bool
    var statuses: seq<int>
    var body: string   // the bytes passed on, in order

    constructor (url: string, nonceConfigured: bool)
      ensures this.url == url && this.nonceConfigured == nonceConfigured
      ensures failure == None && headers == map[] && !wroteHeader && statuses == [] && body == ""
    {
      this.url, this.nonceConfigured := url, nonceConfigured;
      failure, headers, wroteHeader, statuses, body := None, map[], false, [], "";
    }

    /** Injection happens once, for the first status written. */
    method WriteHeader(status: int, nonce: string)
      modifies this`headers, this`wroteHeader, this`statuses
      ensures wroteHeader && statuses == old(statuses) + [status]
      ensures headers == if old(wroteHeader) then old(headers)
                         else Inject(old(headers), failure, nonceConfigured, url, nonce, status)
    {
      if !wroteHeader {
        wroteHeader := true;
        headers := Inject(headers, failure, nonceConfigured, url, nonce, status);
      }
      statuses := statuses + [status];
    }

    /** Writing a body first stands for an explicit 200. */
    method Write(bytes: string, nonce: string)
      modifies this`headers, this`wroteHeader, this`statuses, this`body
      ensures body == old(body) + bytes
      ensures wroteHeader
      ensures old(wroteHeader) ==> headers == old(headers) && statuses == old(statuses)
      ensures !old(wroteHeader) ==> headers == Inject(old(headers), failure, nonceConfigured, url, nonce, 200) &&
                                    statuses == old(statuses) + [200]
    {
      if !wroteHeader {
        WriteHeader(200, nonce);
      }
      body := body + bytes;
    }
  }
}
