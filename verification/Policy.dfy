/**
 Authorization policies as trees, and the per-tool gate that runs them.  A
 denial carries the error's code; its log-only cause is not modelled.
 */
module Policy {
  import opened Base

  datatype Claims = Claims(
    subject: string, issuer: string, email: string, scopes: seq<string>, raw: map<string, string>)

  datatype Policy =
    | HasScopes(required: seq<string>)
    | HasAnyScope(anyOf: seq<string>)
    | HasClaim(name: string, value: string)
    | AllOf(all: seq<Policy>)
    | AnyOf(alternatives: seq<Policy>)
    | AllowAll
    | DenyAll

  datatype Decision = Allow | Deny(code: string)

  const FORBIDDEN := "forbidden"
  const INSUFFICIENT_SCOPE := "insufficient_scope"

  // ---- Meaning: a policy is a predicate on the scope set and the raw claims ----

  predicate Holds(p: Policy, scopes: set<string>, raw: map<string, string>) {
    match p
    case HasScopes(required) => forall s <- required :: s in scopes
    case HasAnyScope(anyOf) => anyOf == [] || exists s <- anyOf :: s in scopes
    case HasClaim(name, value) => name in raw && raw[name] == value
    case AllOf(all) => forall q <- all :: Holds(q, scopes, raw)
    case AnyOf(alternatives) => exists q <- alternatives :: Holds(q, scopes, raw)
    case AllowAll => true
    case DenyAll => false
  }

  /** The code of a denial: that of the first conjunct to deny; a disjunction is simply forbidden. */
  function CodeOf(p: Policy, scopes: set<string>, raw: map<string, string>): string
    requires !Holds(p, scopes, raw)
  {
    match p
    case HasScopes(_) => INSUFFICIENT_SCOPE
    case HasAnyScope(_) => INSUFFICIENT_SCOPE
    case AllOf(all) => CodeOfFirst(all, scopes, raw)
    case _ => FORBIDDEN
  }

  function CodeOfFirst(all: seq<Policy>, scopes: set<string>, raw: map<string, string>): string
    requires exists q <- all :: !Holds(q, scopes, raw)
    decreases all
  {
    if !Holds(all[0], scopes, raw) then CodeOf(all[0], scopes, raw)
    else CodeOfFirst(all[1..], scopes, raw)
  }

  function Decide(p: Policy, scopes: set<string>, raw: map<string, string>): Decision {
    if Holds(p, scopes, raw) then Allow else Deny(CodeOf(p, scopes, raw))
  }

  function ScopeSet(c: Claims): set<string> {
    set s <- c.scopes
  }

  // ---- The authorizers, as they run ----

  method ScopeTable(scopes: seq<string>) returns (have: set<string>)
    ensures have == set s <- scopes
  {
    have := {};
    for i := 0 to |scopes|
      invariant have == set s <- scopes[..i]
    {
      assert scopes[..i + 1] == scopes[..i] + [scopes[i]];
      have := have + {scopes[i]};
    }
    assert scopes[..|scopes|] == scopes;
  }

  /** Running a tree allows exactly what is warranted, and denies with the code of the policy to blame. */
  method Authorize(p: Policy, c: Claims) returns (d: Decision)
    ensures d.Allow? <==> Warranted(p, c)
    ensures d.Deny? ==> exists q :: Blames(p, c, q) && d == Deny(CodeFor(q))
    ensures d == Decide(p, ScopeSet(c), c.raw)
  {
    d := RunPolicy(p, c);
    HoldsIsWarranted(p, c);
    if d.Deny? {
      var q := DenialIsBlamed(p, c);
    }
  }

  /**
   The loops and early exits give the decision the tree's meaning prescribes, so
   the outcome depends on the scope set and the raw claims alone.
   */
  method RunPolicy(p: Policy, c: Claims) returns (d: Decision)
    ensures d == Decide(p, ScopeSet(c), c.raw)
    decreases p
  {
    match p
    case AllowAll =>
      d := Allow;
    case DenyAll =>
      d := Deny(FORBIDDEN);
    case HasClaim(name, value) =>
      d := if name !in c.raw || c.raw[name] != value then Deny(FORBIDDEN) else Allow;
    case HasScopes(required) =>
      if |required| == 0 {
        return Allow;
      }
      var have := ScopeTable(c.scopes);
      for i := 0 to |required|
        invariant forall k :: 0 <= k < i ==> required[k] in have
      {
        if required[i] !in have {
          return Deny(INSUFFICIENT_SCOPE);
        }
      }
      d := Allow;
    case HasAnyScope(anyOf) =>
      if |anyOf| == 0 {
        return Allow;
      }
      var have := ScopeTable(c.scopes);
      for i := 0 to |anyOf|
        invariant forall k :: 0 <= k < i ==> anyOf[k] !in have
      {
        if anyOf[i] in have {
          return Allow;
        }
      }
      d := Deny(INSUFFICIENT_SCOPE);
    case AllOf(all) =>
      for i := 0 to |all|
        invariant forall k :: 0 <= k < i ==> Holds(all[k], ScopeSet(c), c.raw)
      {
        d := RunPolicy(all[i], c);
        if d.Deny? {
          FirstDenial(all, i, ScopeSet(c), c.raw);
          return;
        }
      }
      d := Allow;
    case AnyOf(alternatives) =>
      for i := 0 to |alternatives|
        invariant forall k :: 0 <= k < i ==> !Holds(alternatives[k], ScopeSet(c), c.raw)
      {
        d := RunPolicy(alternatives[i], c);
        if d.Allow? {
          return;
        }
      }
      d := Deny(FORBIDDEN);
  }

  /** A conjunction reports the first of its denials. */
  lemma {:induction false} FirstDenial(all: seq<Policy>, i: nat, scopes: set<string>, raw: map<string, string>)
    requires i < |all| && !Holds(all[i], scopes, raw)
    requires forall k :: 0 <= k < i ==> Holds(all[k], scopes, raw)
    ensures CodeOfFirst(all, scopes, raw) == CodeOf(all[i], scopes, raw)
    decreases i
  {
    if i > 0 {
      assert all[1..][i - 1] == all[i];
      FirstDenial(all[1..], i - 1, scopes, raw);
    }
  }

  /** `raw'` has every claim of `raw`, unchanged, and possibly new ones. */
  predicate Extends(raw: map<string, string>, raw': map<string, string>) {
    forall k <- raw :: k in raw' && raw'[k] == raw[k]
  }

  /** More scopes and new claims never turn an allowed request into a denied one. */
  lemma {:induction false} HoldsIsMonotone(
    p: Policy, scopes: set<string>, raw: map<string, string>, scopes': set<string>, raw': map<string, string>)
    requires scopes <= scopes' && Extends(raw, raw') && Holds(p, scopes, raw)
    ensures Holds(p, scopes', raw')
    decreases p
  {
    match p
    case AllOf(all) =>
      forall q <- all ensures Holds(q, scopes', raw') {
        HoldsIsMonotone(q, scopes, raw, scopes', raw');
      }
    case AnyOf(alternatives) =>
      var q :| q in alternatives && Holds(q, scopes, raw);
      HoldsIsMonotone(q, scopes, raw, scopes', raw');
    case _ =>
  }

  // ---- What a grant rests on ----

  /** Finitely many scopes and claims, each claim a name with its value. */
  datatype Evidence = Evidence(scopes: set<string>, claims: set<(string, string)>)
  {
    function Plus(other: Evidence): Evidence {
      Evidence(scopes + other.scopes, claims + other.claims)
    }

    predicate HeldBy(c: Claims) {
      (forall s <- scopes :: s in c.scopes) && forall pair <- claims :: pair in c.raw.Items
    }
  }

  const NOTHING := Evidence({}, {})

  /** `e` is just enough to satisfy `p`: a union over conjuncts, one alternative's, the very claim a leaf names. */
  ghost predicate Suffices(e: Evidence, p: Policy)
    decreases p, 0
  {
    match p
    case HasScopes(required) => e == Evidence(set s <- required, {})
    case HasAnyScope(anyOf) => if anyOf == [] then e == NOTHING else exists s <- anyOf :: e == Evidence({s}, {})
    case HasClaim(name, value) => e == Evidence({}, {(name, value)})
    case AllOf(all) => SufficesForAll(e, all)
    case AnyOf(alternatives) => exists q <- alternatives :: Suffices(e, q)
    case AllowAll => e == NOTHING
    case DenyAll => false
  }

  ghost predicate SufficesForAll(e: Evidence, all: seq<Policy>)
    decreases all, 1
  {
    if all == [] then e == NOTHING
    else exists first: Evidence, rest: Evidence ::
      Suffices(first, all[0]) && SufficesForAll(rest, all[1..]) && e == first.Plus(rest)
  }

  /** The caller holds evidence that suffices. */
  ghost predicate Warranted(p: Policy, c: Claims) {
    exists e: Evidence :: Suffices(e, p) && e.HeldBy(c)
  }

  lemma {:induction false} HoldsIsWarranted(p: Policy, c: Claims)
    ensures Holds(p, ScopeSet(c), c.raw) <==> Warranted(p, c)
    decreases p, 0
  {
    match p
    case HasScopes(required) =>
      assert Suffices(Evidence(set s <- required, {}), p);
    case HasAnyScope(anyOf) =>
      if anyOf == [] {
        assert Suffices(NOTHING, p);
      } else if Holds(p, ScopeSet(c), c.raw) {
        var s :| s in anyOf && s in c.scopes;
        assert Suffices(Evidence({s}, {}), p);
      }
    case HasClaim(name, value) =>
      var e := Evidence({}, {(name, value)});
      assert Suffices(e, p);
      assert (name, value) in e.claims;
    case AllOf(all) => AllHoldIsWarranted(all, c);
      if Warranted(p, c) {
        var e :| Suffices(e, p) && e.HeldBy(c);
        assert SufficesForAll(e, all);
      }
      if exists e :: SufficesForAll(e, all) && e.HeldBy(c) {
        var e :| SufficesForAll(e, all) && e.HeldBy(c);
        assert Suffices(e, p);
      }
    case AnyOf(alternatives) =>
      forall q <- alternatives ensures Holds(q, ScopeSet(c), c.raw) <==> Warranted(q, c) {
        HoldsIsWarranted(q, c);
      }
      if Holds(p, ScopeSet(c), c.raw) {
        var q :| q in alternatives && Holds(q, ScopeSet(c), c.raw);
        var e :| Suffices(e, q) && e.HeldBy(c);
        assert Suffices(e, p);
      }
      if Warranted(p, c) {
        var e :| Suffices(e, p) && e.HeldBy(c);
        var q :| q in alternatives && Suffices(e, q);
        assert Warranted(q, c);
      }
    case AllowAll =>
      assert Suffices(NOTHING, p);
    case DenyAll =>
  }

  lemma {:induction false} AllHoldIsWarranted(all: seq<Policy>, c: Claims)
    ensures (forall q <- all :: Holds(q, ScopeSet(c), c.raw)) <==> exists e :: SufficesForAll(e, all) && e.HeldBy(c)
    decreases all, 1
  {
    if all == [] {
      assert SufficesForAll(NOTHING, all);
    } else {
      HoldsIsWarranted(all[0], c);
      AllHoldIsWarranted(all[1..], c);
      assert all == [all[0]] + all[1..];
      if forall q <- all :: Holds(q, ScopeSet(c), c.raw) {
        assert Holds(all[0], ScopeSet(c), c.raw);
        var first :| Suffices(first, all[0]) && first.HeldBy(c);
        var rest :| SufficesForAll(rest, all[1..]) && rest.HeldBy(c);
        assert SufficesForAll(first.Plus(rest), all);
      }
      if exists e :: SufficesForAll(e, all) && e.HeldBy(c) {
        var e :| SufficesForAll(e, all) && e.HeldBy(c);
        var first: Evidence, rest: Evidence :|
          Suffices(first, all[0]) && SufficesForAll(rest, all[1..]) && e == first.Plus(rest);
        assert first.HeldBy(c) && rest.HeldBy(c);
      }
    }
  }

  /** Without something that all sufficient evidence contains, a policy denies. */
  lemma NecessaryEvidence(p: Policy, c: Claims, needed: Evidence)
    requires forall e | Suffices(e, p) :: needed.scopes <= e.scopes && needed.claims <= e.claims
    requires !needed.HeldBy(c)
    ensures Decide(p, ScopeSet(c), c.raw).Deny?
  {
    HoldsIsWarranted(p, c);
  }

  /** So a claim leaf denies a caller whose claim is missing or has another value, wherever it is required. */
  lemma LostClaimDenies(all: seq<Policy>, i: nat, c: Claims)
    requires i < |all| && all[i].HasClaim? && (all[i].name, all[i].value) !in c.raw.Items
    ensures Decide(all[i], ScopeSet(c), c.raw) == Deny("forbidden")
    ensures Decide(AllOf(all), ScopeSet(c), c.raw).Deny?
  {
    NecessaryEvidence(all[i], c, Evidence({}, {(all[i].name, all[i].value)}));
    assert all[i] in all;
  }

  /** `q` is the first policy to fail in `p`, looking into conjunctions but not into alternatives. */
  ghost predicate Blames(p: Policy, c: Claims, q: Policy)
    decreases p
  {
    if p.AllOf? then
      exists i :: 0 <= i < |p.all| && (forall k :: 0 <= k < i ==> Warranted(p.all[k], c)) && Blames(p.all[i], c, q)
    else q == p && !Warranted(p, c)
  }

  function CodeFor(q: Policy): string {
    if q.HasScopes? || q.HasAnyScope? then "insufficient_scope" else "forbidden"
  }

  /** A denial carries the code of the policy to blame. */
  lemma {:induction false} DenialIsBlamed(p: Policy, c: Claims) returns (q: Policy)
    requires Decide(p, ScopeSet(c), c.raw).Deny?
    ensures Blames(p, c, q) && Decide(p, ScopeSet(c), c.raw) == Deny(CodeFor(q))
    decreases p
  {
    if p.AllOf? {
      var i := FirstToDeny(p.all, c);
      FirstDenial(p.all, i, ScopeSet(c), c.raw);
      q := DenialIsBlamed(p.all[i], c);
      forall k | 0 <= k < i ensures Warranted(p.all[k], c) {
        HoldsIsWarranted(p.all[k], c);
      }
    } else {
      HoldsIsWarranted(p, c);
      q := p;
    }
  }

  lemma FirstToDeny(all: seq<Policy>, c: Claims) returns (i: nat)
    requires exists q <- all :: !Holds(q, ScopeSet(c), c.raw)
    ensures i < |all| && !Holds(all[i], ScopeSet(c), c.raw)
    ensures forall k :: 0 <= k < i ==> Holds(all[k], ScopeSet(c), c.raw)
  {
    i := 0;
    while Holds(all[i], ScopeSet(c), c.raw)
      invariant 0 <= i < |all| && exists q <- all[i..] :: !Holds(q, ScopeSet(c), c.raw)
      invariant forall k :: 0 <= k < i ==> Holds(all[k], ScopeSet(c), c.raw)
      decreases |all| - i
    {
      assert all[i..] == [all[i]] + all[i + 1..];
      i := i + 1;
    }
  }

  // ---- The tool gate ----

  /** A tool may be mapped to a nil policy, and the default may be nil: both allow. */
  datatype Gate = Gate(policies: map<string, Option<Policy>>, default: Option<Policy>)

  function PolicyFor(g: Gate, tool: string): Option<Policy> {
    if tool in g.policies then g.policies[tool] else g.default
  }

  function Evaluate(g: Gate, c: Claims, tool: string): Decision {
    match PolicyFor(g, tool)
    case None => Allow
    case Some(p) => Decide(p, ScopeSet(c), c.raw)
  }

  /** `reason` is empty on a grant. */
  datatype Event = Event(granted: bool, tool: string, reason: string, subject: string, issuer: string,
                         scopes: seq<string>, email: string)

  const UNAUTHENTICATED := "unauthenticated"

  /** What the event says about the caller. */
  function ToolEvent(c: Claims, tool: string, granted: bool, reason: string): Event {
    Event(granted, tool, reason, c.subject, c.issuer, c.scopes, c.email)
  }

  function CallEvent(g: Gate, caller: Option<Claims>, tool: string): Event {
    match caller
    case None => Event(false, tool, UNAUTHENTICATED, "", "", [], "")
    case Some(c) =>
      match Evaluate(g, c, tool)
      case Allow => ToolEvent(c, tool, true, "")
      case Deny(code) => ToolEvent(c, tool, false, code)
  }

  predicate CallGranted(g: Gate, caller: Option<Claims>, tool: string) {
    caller.Some? && Evaluate(g, caller.value, tool) == Allow
  }

  /** Visible tools are those whose call would be granted, in the server's order. */
  function Visible(g: Gate, caller: Option<Claims>, tools: seq<string>): seq<string> {
    if tools == [] then []
    else Visible(g, caller, Init(tools)) + if CallGranted(g, caller, Last(tools)) then [Last(tools)] else []
  }

  class ToolGate {
    const gate: Gate
    var audit: seq<Event>

    constructor (gate: Gate)
      ensures this.gate == gate && audit == []
    {
      this.gate := gate;
      audit := [];
    }

    method EvaluateTool(c: Claims, tool: string) returns (d: Decision)
      ensures d == Evaluate(gate, c, tool)
    {
      var policy := PolicyFor(gate, tool);
      if policy.None? {
        return Allow;
      }
      d := Authorize(policy.value, c);
    }

    /**
     True when the call is passed on.  `tool` is None for parameters of another
     type, which are passed on unexamined and unrecorded.
     */
    method GateCall(caller: Option<Claims>, tool: Option<string>) returns (passed: bool)
      modifies this
      ensures passed == (tool.None? || CallGranted(gate, caller, tool.value))
      ensures tool.None? ==> audit == old(audit)
      ensures tool.Some? ==>
                audit == old(audit) + [CallEvent(gate, caller, tool.value)] && Last(audit).granted == passed
    {
      if tool.None? {
        return true;
      }
      if caller.None? {
        audit := audit + [Event(false, tool.value, UNAUTHENTICATED, "", "", [], "")];
        return false;
      }
      var d := EvaluateTool(caller.value, tool.value);
      if d.Deny? {
        audit := audit + [ToolEvent(caller.value, tool.value, false, d.code)];
        return false;
      }
      audit := audit + [ToolEvent(caller.value, tool.value, true, "")];
      return true;
    }

    method FilterList(caller: Option<Claims>, tools: seq<string>) returns (visible: seq<string>)
      ensures visible == Visible(gate, caller, tools)
    {
      visible := [];
      if caller.None? {
        NobodySeesNothing(gate, tools);
        return;
      }
      for i := 0 to |tools|
        invariant visible == Visible(gate, caller, tools[..i])
      {
        var d := EvaluateTool(caller.value, tools[i]);
        assert Init(tools[..i + 1]) == tools[..i];
        if d.Allow? {
          visible := visible + [tools[i]];
        }
      }
      assert tools[..|tools|] == tools;
    }
  }

  /** The policy of a tool: its own entry, even a nil one, before the default. */
  ghost predicate GatePermits(g: Gate, c: Claims, tool: string) {
    if tool in g.policies then g.policies[tool].None? || Warranted(g.policies[tool].value, c)
    else g.default.None? || Warranted(g.default.value, c)
  }

  /**
   A call is granted exactly to a caller whose evidence suffices for the tool's
   policy; its event names the tool and the caller, with the code of the policy
   to blame on a denial.
   */
  lemma CallGrantedExactly(g: Gate, caller: Option<Claims>, tool: string)
    ensures CallGranted(g, caller, tool) <==> caller.Some? && GatePermits(g, caller.value, tool)
    ensures var e := CallEvent(g, caller, tool);
            && e.tool == tool && e.granted == CallGranted(g, caller, tool) && (e.granted ==> e.reason == "")
            && (caller.None? ==> e == Event(false, tool, "unauthenticated", "", "", [], ""))
            && (caller.Some? ==> e.subject == caller.value.subject && e.issuer == caller.value.issuer &&
                                 e.scopes == caller.value.scopes && e.email == caller.value.email)
            && (caller.Some? && !e.granted ==>
                  var p := if tool in g.policies then g.policies[tool] else g.default;
                  p.Some? && exists q :: Blames(p.value, caller.value, q) && e.reason == CodeFor(q))
  {
    if caller.Some? && PolicyFor(g, tool).Some? {
      HoldsIsWarranted(PolicyFor(g, tool).value, caller.value);
      if !CallGranted(g, caller, tool) {
        var q := DenialIsBlamed(PolicyFor(g, tool).value, caller.value);
      }
    }
  }

  lemma {:induction false} NobodySeesNothing(g: Gate, tools: seq<string>)
    ensures Visible(g, None, tools) == []
  {
    if tools != [] {
      NobodySeesNothing(g, Init(tools));
    }
  }

  /** The list shows a tool exactly when it is offered and its call would be granted. */
  lemma {:induction false} ListedExactlyWhenCallable(g: Gate, caller: Option<Claims>, tools: seq<string>, tool: string)
    ensures tool in Visible(g, caller, tools) <==> tool in tools && CallGranted(g, caller, tool)
  {
    if tools != [] {
      ListedExactlyWhenCallable(g, caller, Init(tools), tool);
      assert tools == Init(tools) + [Last(tools)];
    }
  }

  /** Filtering page by page equals filtering the whole list. */
  lemma {:induction false} PagingCommutes(g: Gate, caller: Option<Claims>, page: seq<string>, rest: seq<string>)
    ensures Visible(g, caller, page + rest) == Visible(g, caller, page) + Visible(g, caller, rest)
    decreases |rest|
  {
    if rest == [] {
      assert page + rest == page;
    } else {
      assert Init(page + rest) == page + Init(rest);
      PagingCommutes(g, caller, page, Init(rest));
    }
  }

  ghost predicate AtLeast(c: Claims, c': Claims) {
    ScopeSet(c) <= ScopeSet(c') && Extends(c.raw, c'.raw)
  }

  /** Through the gate: a caller with more scopes and claims keeps every grant. */
  lemma GateIsMonotone(g: Gate, c: Claims, c': Claims, tool: string)
    requires AtLeast(c, c') && CallGranted(g, Some(c), tool)
    ensures CallGranted(g, Some(c'), tool)
  {
    if PolicyFor(g, tool).Some? {
      HoldsIsMonotone(PolicyFor(g, tool).value, ScopeSet(c), c.raw, ScopeSet(c'), c'.raw);
    }
  }

  /** ... so its list contains the other's, in the same order: the lesser list is the greater one filtered again. */
  lemma {:induction false} ListIsMonotone(g: Gate, c: Claims, c': Claims, tools: seq<string>)
    requires AtLeast(c, c')
    ensures Visible(g, Some(c), Visible(g, Some(c'), tools)) == Visible(g, Some(c), tools)
  {
    if tools != [] {
      ListIsMonotone(g, c, c', Init(tools));
      var seen, last := Visible(g, Some(c'), Init(tools)), Last(tools);
      if CallGranted(g, Some(c'), last) {
        assert Init(seen + [last]) == seen;
      } else {
        assert seen + [] == seen;
        if CallGranted(g, Some(c), last) {
          GateIsMonotone(g, c, c', last);
        }
      }
    }
  }
}
