/**
 The exchange token cache on the heap.  `Get` copies and `Set` keeps the pointer
 it is given: lookups are safe from whatever callers do to tokens that they have
 to themselves, as those from `Get`, and from nothing else.
 */
module TokenCache {
  import opened Base
  import opened Exchange
  import Ttl = TtlCache

  datatype Scalars = Scalars(accessToken: string, issuedTokenType: string, tokenType: string, expiresAt: Option<int>)

  function ScalarsOf(t: Token): Scalars {
    Scalars(t.accessToken, t.issuedTokenType, t.tokenType, t.expiresAt)
  }

  function TokenWith(s: Scalars, scopes: seq<string>): Token {
    Token(s.accessToken, s.issuedTokenType, s.tokenType, s.expiresAt, scopes)
  }

  // ---- Tokens, their sharing and the cache, as values ----

  /** A token object: its slice is a number, so that two objects can share one. */
  datatype Handle = Handle(scalars: Scalars, scopes: Option<nat>)

  /** Every token object there is; an entry of the cache is one of them, not a copy. */
  datatype World = World(tokens: seq<Handle>, slices: seq<seq<string>>, items: map<string, nat>)
  {
    function Text(id: Option<nat>): seq<string> {
      if id.Some? && id.value < |slices| then slices[id.value] else []
    }

    function ValueOf(i: nat): Token
      requires i < |tokens|
    {
      TokenWith(tokens[i].scalars, Text(tokens[i].scopes))
    }

    predicate WellFormed() {
      && (forall i :: 0 <= i < |tokens| && tokens[i].scopes.Some? ==> tokens[i].scopes.value < |slices|)
      && forall key <- items :: items[key] < |tokens|
    }

    /** The value of every entry. */
    function View(): Items
      requires WellFormed()
    {
      map key | key in items :: ValueOf(items[key])
    }
  }

  datatype Mutation =
    | SetScalars(scalars: Scalars)
    | Write(at: nat, text: string)
    | NewSlice(texts: Option<seq<string>>)
    | ShareWith(other: nat)

  datatype Action =
    | Create(token: Token)
    | DoSet(key: string, which: nat)
    | DoGet(key: string, now: int)
    | Mutate(which: nat, how: Mutation)

  function Mutated(w: World, i: nat, how: Mutation): World
    requires i < |w.tokens|
  {
    var h := w.tokens[i];
    match how
    case SetScalars(scalars) => w.(tokens := w.tokens[i := h.(scalars := scalars)])
    case Write(at, text) =>
      if h.scopes.Some? && h.scopes.value < |w.slices| && at < |w.slices[h.scopes.value]|
      then w.(slices := w.slices[h.scopes.value := w.slices[h.scopes.value][at := text]]) else w
    case NewSlice(texts) =>
      if texts.None? then w.(tokens := w.tokens[i := h.(scopes := None)])
      else w.(tokens := w.tokens[i := h.(scopes := Some(|w.slices|))], slices := w.slices + [texts.value])
    case ShareWith(other) =>
      if other < |w.tokens| then w.(tokens := w.tokens[i := h.(scopes := w.tokens[other].scopes)]) else w
  }

  /** A fresh object with value `t`; an empty scope list is a nil slice. */
  function HandedOut(w: World, t: Token): World {
    if t.scopes == [] then w.(tokens := w.tokens + [Handle(ScalarsOf(t), None)])
    else w.(tokens := w.tokens + [Handle(ScalarsOf(t), Some(|w.slices|))], slices := w.slices + [t.scopes])
  }

  predicate HitIn(w: World, key: string, now: int, leeway: int) {
    key in w.items && w.items[key] < |w.tokens| && Ttl.Usable(w.tokens[w.items[key]].scalars.expiresAt, now, leeway)
  }

  function Next(w: World, action: Action, leeway: int): World {
    match action
    case Create(token) => HandedOut(w, token)
    case DoSet(key, i) => if i < |w.tokens| then w.(items := w.items[key := i]) else w
    case DoGet(key, now) =>
      if HitIn(w, key, now, leeway) then HandedOut(w, w.ValueOf(w.items[key])) else w.(items := w.items - {key})
    case Mutate(i, how) => if i < |w.tokens| then Mutated(w, i, how) else w
  }

  function Run(w: World, script: seq<Action>, leeway: int): World {
    if script == [] then w else Next(Run(w, Init(script), leeway), Last(script), leeway)
  }

  lemma NextIsWellFormed(w: World, action: Action, leeway: int)
    requires w.WellFormed()
    ensures Next(w, action, leeway).WellFormed()
  {
  }

  // ---- Which mutations show ----

  /** The cache's value changes exactly when that of an entry does. */
  lemma ViewsDiffer(w: World, w': World)
    requires w.WellFormed() && w'.WellFormed() && w'.items == w.items
    ensures w'.View() != w.View() <==> exists key <- w.items :: w'.ValueOf(w.items[key]) != w.ValueOf(w.items[key])
  {
    if forall key <- w.items :: w'.ValueOf(w.items[key]) == w.ValueOf(w.items[key]) {
      assert w'.View() == w.View();
    } else {
      var key :| key in w.items && w'.ValueOf(w.items[key]) != w.ValueOf(w.items[key]);
      assert w'.View()[key] != w.View()[key];
    }
  }

  /** What a mutation of token `i` does to the value of token `k`: only a write into a slice reaches others. */
  predicate Changes(w: World, i: nat, how: Mutation, k: nat)
    requires i < |w.tokens| && k < |w.tokens|
  {
    var h := w.tokens[i];
    match how
    case SetScalars(scalars) => k == i && scalars != h.scalars
    case Write(at, text) =>
      h.scopes.Some? && w.tokens[k].scopes == h.scopes && at < |w.Text(h.scopes)| && w.Text(h.scopes)[at] != text
    case NewSlice(texts) => k == i && w.Text(h.scopes) != if texts.None? then [] else texts.value
    case ShareWith(other) => k == i && other < |w.tokens| && w.Text(w.tokens[other].scopes) != w.Text(h.scopes)
  }

  lemma ValueChangesExactly(w: World, i: nat, how: Mutation, k: nat)
    requires w.WellFormed() && i < |w.tokens| && k < |w.tokens|
    ensures |Mutated(w, i, how).tokens| == |w.tokens| && Mutated(w, i, how).items == w.items
    ensures Mutated(w, i, how).ValueOf(k) != w.ValueOf(k) <==> Changes(w, i, how, k)
  {
  }

  /** A mutation of any token shows in the cache's value exactly when it changes a token that is an entry. */
  lemma MutationsShowExactly(w: World, i: nat, how: Mutation)
    requires w.WellFormed() && i < |w.tokens|
    ensures Mutated(w, i, how).WellFormed()
    ensures Mutated(w, i, how).View() != w.View() <==> exists key <- w.items :: Changes(w, i, how, w.items[key])
  {
    var w' := Mutated(w, i, how);
    NextIsWellFormed(w, Mutate(i, how), 0);
    forall key <- w.items
      ensures w'.ValueOf(w.items[key]) != w.ValueOf(w.items[key]) <==> Changes(w, i, how, w.items[key])
    {
      ValueChangesExactly(w, i, how, w.items[key]);
    }
    ValueChangesExactly(w, i, how, i);
    ViewsDiffer(w, w');
  }

  // ---- Whole scripts ----

  /** Token `t` is token `i` or has its slice. */
  predicate Tied(w: World, i: nat, t: nat) {
    t == i || (i < |w.tokens| && t < |w.tokens| && w.tokens[i].scopes.Some? && w.tokens[t].scopes == w.tokens[i].scopes)
  }

  /** A step's effect on what callers have to themselves: new tokens are, stored and outside ones are not. */
  ghost function OwnAfter(w: World, mine: set<nat>, action: Action, leeway: int): set<nat> {
    match action
    case Create(_) => mine + {|w.tokens|}
    case DoGet(key, now) => if HitIn(w, key, now, leeway) then mine + {|w.tokens|} else mine
    case DoSet(_, i) => set t | t in mine && !Tied(w, i, t)
    case Mutate(i, how) =>
      if how.ShareWith? && how.other < |w.tokens| && how.other !in mine then mine - {i} else mine
  }

  /** Tokens made by callers or handed out by `Get` along the script, and tied to no stored or older one since. */
  ghost function Own(w: World, script: seq<Action>, leeway: int): set<nat> {
    if script == [] then {}
    else OwnAfter(Run(w, Init(script), leeway), Own(w, Init(script), leeway), Last(script), leeway)
  }

  /** Only such tokens are mutated; anything may be stored and looked up. */
  ghost predicate MutatesOwn(w: World, script: seq<Action>, leeway: int) {
    script == [] ||
    (MutatesOwn(w, Init(script), leeway) &&
     (Last(script).Mutate? ==> Last(script).which in Own(w, Init(script), leeway)))
  }

  /** Tokens in `mine` are no entries and share no slice with a token outside. */
  ghost predicate Private(w: World, mine: set<nat>) {
    && w.WellFormed() && (forall i <- mine :: i < |w.tokens|)
    && (forall key <- w.items :: w.items[key] !in mine)
    && forall i, t: nat | i in mine && t < |w.tokens| && t !in mine && w.tokens[i].scopes.Some? ::
         w.tokens[t].scopes != w.tokens[i].scopes
  }

  lemma MutationKeepsPrivate(w: World, mine: set<nat>, i: nat, how: Mutation, leeway: int)
    requires Private(w, mine) && i in mine
    ensures Private(Mutated(w, i, how), OwnAfter(w, mine, Mutate(i, how), leeway))
  {
    NextIsWellFormed(w, Mutate(i, how), 0);
  }

  lemma StoreKeepsPrivate(w: World, mine: set<nat>, key: string, i: nat, leeway: int)
    requires Private(w, mine)
    ensures Private(Next(w, DoSet(key, i), leeway), OwnAfter(w, mine, DoSet(key, i), leeway))
  {
  }

  /** What is handed out is private at once. */
  lemma HandedOutIsPrivate(w: World, mine: set<nat>, t: Token)
    requires Private(w, mine)
    ensures Private(HandedOut(w, t), mine + {|w.tokens|})
  {
    NextIsWellFormed(w, Create(t), 0);
  }

  lemma {:induction false} OwnStaysPrivate(w: World, script: seq<Action>, leeway: int)
    requires w.WellFormed() && MutatesOwn(w, script, leeway)
    ensures Private(Run(w, script, leeway), Own(w, script, leeway))
    decreases |script|
  {
    if script != [] {
      OwnStaysPrivate(w, Init(script), leeway);
      var before, mine := Run(w, Init(script), leeway), Own(w, Init(script), leeway);
      match Last(script)
      case Create(token) => HandedOutIsPrivate(before, mine, token);
      case DoSet(key, i) => StoreKeepsPrivate(before, mine, key, i, leeway);
      case DoGet(key, now) =>
        if HitIn(before, key, now, leeway) {
          HandedOutIsPrivate(before, mine, before.ValueOf(before.items[key]));
        }
      case Mutate(i, how) => MutationKeepsPrivate(before, mine, i, how, leeway);
    }
  }

  lemma PrivateMutationIsInvisible(w: World, mine: set<nat>, i: nat, how: Mutation)
    requires Private(w, mine) && i in mine
    ensures Mutated(w, i, how).WellFormed() && Mutated(w, i, how).View() == w.View()
  {
    MutationsShowExactly(w, i, how);
  }

  /** The same step of a value-level cache: mutations do not exist for it. */
  function ViewStep(w: World, view: Items, action: Action, leeway: int): Items {
    match action
    case DoSet(key, i) => if i < |w.tokens| then view[key := w.ValueOf(i)] else view
    case DoGet(key, now) => Looked(view, key, now, leeway)
    case _ => view
  }

  /**
   Separation: along any script that mutates only what callers have to
   themselves, each step does to the cache's value exactly what it does to a
   value-level cache, and each lookup hands out exactly what that one holds.
   */
  lemma OwnMutationsAreInvisible(w: World, script: seq<Action>, leeway: int)
    requires w.WellFormed() && script != [] && MutatesOwn(w, script, leeway)
    ensures var before, after, action := Run(w, Init(script), leeway), Run(w, script, leeway), Last(script);
            && before.WellFormed() && after.WellFormed()
            && after.View() == ViewStep(before, before.View(), action, leeway)
            && (action.DoGet? ==>
                  && (|after.tokens| > |before.tokens| <==> Hit(before.View(), action.key, action.now, leeway))
                  && (|after.tokens| > |before.tokens| ==>
                        after.ValueOf(|before.tokens|) == before.View()[action.key]))
  {
    var before, action := Run(w, Init(script), leeway), Last(script);
    OwnStaysPrivate(w, Init(script), leeway);
    NextIsWellFormed(before, action, leeway);
    if action.Mutate? {
      PrivateMutationIsInvisible(before, Own(w, Init(script), leeway), action.which, action.how);
    } else if action.DoGet? {
      LookupIsValueLevel(before, action.key, action.now, leeway);
    } else if action.Create? {
      HandedOutKeepsOthers(before, action.token);
    } else if action.which < |before.tokens| {
      StoreIsValueLevel(before, action.key, action.which);
    }
  }

  lemma HandedOutKeepsOthers(w: World, t: Token)
    requires w.WellFormed()
    ensures HandedOut(w, t).WellFormed() && HandedOut(w, t).View() == w.View()
    ensures |HandedOut(w, t).tokens| == |w.tokens| + 1 && HandedOut(w, t).ValueOf(|w.tokens|) == t
  {
    NextIsWellFormed(w, Create(t), 0);
    forall key <- w.items ensures HandedOut(w, t).ValueOf(w.items[key]) == w.ValueOf(w.items[key]) {
    }
    ViewsDiffer(w, HandedOut(w, t));
  }

  lemma StoreIsValueLevel(w: World, key: string, i: nat)
    requires w.WellFormed() && i < |w.tokens|
    ensures w.(items := w.items[key := i]).WellFormed()
    ensures w.(items := w.items[key := i]).View() == w.View()[key := w.ValueOf(i)]
  {
  }

  lemma DropIsValueLevel(w: World, key: string)
    requires w.WellFormed()
    ensures w.(items := w.items - {key}).WellFormed() && w.(items := w.items - {key}).View() == w.View() - {key}
  {
  }

  lemma HitIsValueLevel(w: World, key: string, now: int, leeway: int)
    requires w.WellFormed()
    ensures HitIn(w, key, now, leeway) <==> Hit(w.View(), key, now, leeway)
    ensures key in w.items ==> w.View()[key] == w.ValueOf(w.items[key])
  {
  }

  lemma LookupIsValueLevel(w: World, key: string, now: int, leeway: int)
    requires w.WellFormed()
    ensures var w' := Next(w, DoGet(key, now), leeway);
            && w'.WellFormed() && w'.View() == Looked(w.View(), key, now, leeway)
            && (|w'.tokens| > |w.tokens| <==> Hit(w.View(), key, now, leeway))
            && (|w'.tokens| > |w.tokens| ==> w'.ValueOf(|w.tokens|) == w.View()[key])
  {
    HitIsValueLevel(w, key, now, leeway);
    if HitIn(w, key, now, leeway) {
      HandedOutKeepsOthers(w, w.ValueOf(w.items[key]));
    } else {
      DropIsValueLevel(w, key);
    }
  }

  // ---- The heap ----

  class TokenRef {
    var scalars: Scalars
    var scopes: array?<string>

    constructor (scalars: Scalars, scopes: array?<string>)
      ensures this.scalars == scalars && this.scopes == scopes
    {
      this.scalars, this.scopes := scalars, scopes;
    }

    ghost function Parts(): set<object>
      reads this
    {
      {this} + if scopes == null then {} else {scopes}
    }

    function Value(): Token
      reads this, scopes
    {
      TokenWith(scalars, if scopes == null then [] else scopes[..])
    }
  }

  /** A fresh object; an empty scope list is a nil slice. */
  method Make(token: Token) returns (tok: TokenRef)
    ensures fresh(tok.Parts()) && tok.Value() == token && (tok.scopes == null <==> token.scopes == [])
  {
    var scopes: array?<string> := null;
    if token.scopes != [] {
      scopes := new string[|token.scopes|](i requires 0 <= i < |token.scopes| => token.scopes[i]);
      assert scopes[..] == token.scopes;
    }
    tok := new TokenRef(ScalarsOf(token), scopes);
  }

  /** The copy `Get` makes: a new object and, unless empty, a new slice. */
  method Copy(tok: TokenRef) returns (cp: TokenRef)
    ensures fresh(cp.Parts()) && cp.Value() == tok.Value() && (cp.scopes == null <==> tok.Value().scopes == [])
  {
    var scopes: array?<string> := null;
    if tok.scopes != null && tok.scopes.Length > 0 {
      var source := tok.scopes;
      scopes := new string[source.Length](i requires 0 <= i < source.Length reads source => source[i]);
      assert scopes[..] == source[..];
    }
    cp := new TokenRef(tok.scalars, scopes);
  }

  class MemoryCache {
    const leeway: int
    var items: map<string, TokenRef>

    constructor (leeway: int)
      ensures this.leeway == leeway && items == map[]
    {
      this.leeway := leeway;
      items := map[];
    }

    /** The value of every entry. */
    ghost function View(): Items
      reads this, items.Values, set r | r in items.Values :: r.scopes
    {
      map key | key in items :: items[key].Value()
    }

    predicate Holds(key: string, now: int)
      reads this, items.Values
    {
      key in items && Ttl.Usable(items[key].scalars.expiresAt, now, leeway)
    }

    /** The caller's own object becomes the entry. */
    method Set(key: string, tok: TokenRef)
      modifies this
      ensures items == old(items)[key := tok] && View() == old(View())[key := tok.Value()]
    {
      items := items[key := tok];
    }

    /** A hit is a fresh copy, slice included. */
    method Get(key: string, now: int) returns (found: TokenRef?)
      modifies this
      ensures items == if old(Holds(key, now)) then old(items) else old(items) - {key}
      ensures found != null <==> old(Holds(key, now))
      ensures found != null ==> fresh(found.Parts()) && found.Value() == old(items[key].Value())
      ensures found != null ==> (found.scopes == null <==> found.Value().scopes == [])
    {
      if key !in items {
        assert items - {key} == items;
        return null;
      }
      var tok := items[key];
      if tok.scalars.expiresAt.None? || !(now < tok.scalars.expiresAt.value - leeway) {
        items := items - {key};
        return null;
      }
      found := Copy(tok);
    }
  }

  // ---- The same script on the heap ----

  ghost predicate Distinct<T>(xs: seq<T>) {
    forall i, j :: 0 <= i < j < |xs| ==> xs[i] != xs[j]
  }

  /** The objects behind a world's numbers. */
  datatype Refs = Refs(tokens: seq<TokenRef>, slices: seq<array<string>>)

  ghost predicate HandleIs(slices: seq<array<string>>, r: TokenRef, h: Handle)
    reads r
  {
    r.scalars == h.scalars &&
    if h.scopes.None? then r.scopes == null else h.scopes.value < |slices| && r.scopes == slices[h.scopes.value]
  }

  /** The heap holds exactly the world's tokens and slices, with the world's sharing and the world's entries. */
  ghost predicate Represents(cache: MemoryCache, refs: Refs, w: World)
    reads cache, refs.tokens, refs.slices
  {
    && Distinct(refs.tokens) && Distinct(refs.slices)
    && |refs.tokens| == |w.tokens| && |refs.slices| == |w.slices|
    && (forall i :: 0 <= i < |refs.tokens| ==> HandleIs(refs.slices, refs.tokens[i], w.tokens[i]))
    && (forall k :: 0 <= k < |refs.slices| ==> refs.slices[k][..] == w.slices[k])
    && cache.items.Keys == w.items.Keys
    && forall key <- cache.items :: w.items[key] < |refs.tokens| && cache.items[key] == refs.tokens[w.items[key]]
  }

  function WithNew(refs: Refs, r: TokenRef): Refs
    reads r
  {
    Refs(refs.tokens + [r], refs.slices + if r.scopes == null then [] else [r.scopes])
  }

  lemma NewTokenRepresented(cache: MemoryCache, refs: Refs, w: World, r: TokenRef)
    requires Represents(cache, refs, w) && r !in refs.tokens && (r.scopes != null ==> r.scopes !in refs.slices)
    requires r.scopes == null <==> r.Value().scopes == []
    ensures Represents(cache, WithNew(refs, r), HandedOut(w, r.Value()))
  {
    var refs', w' := WithNew(refs, r), HandedOut(w, r.Value());
    forall i | 0 <= i < |refs'.tokens| ensures HandleIs(refs'.slices, refs'.tokens[i], w'.tokens[i]) {
      if i < |refs.tokens| {
        assert HandleIs(refs.slices, refs.tokens[i], w.tokens[i]);
      }
    }
  }

  lemma TokenValue(cache: MemoryCache, refs: Refs, w: World, i: nat)
    requires Represents(cache, refs, w) && i < |refs.tokens|
    ensures refs.tokens[i].Value() == w.ValueOf(i)
  {
    assert HandleIs(refs.slices, refs.tokens[i], w.tokens[i]);
  }

  method ActGet(cache: MemoryCache, refs: Refs, ghost w: World, key: string, now: int)
    returns (refs': Refs, found: TokenRef?)
    requires Represents(cache, refs, w)
    modifies cache
    ensures Represents(cache, refs', Next(w, DoGet(key, now), cache.leeway))
    ensures found == null ==> refs' == refs
    ensures found != null ==> fresh(found.Parts()) && refs' == WithNew(refs, found)
  {
    ghost var hit := HitIn(w, key, now, cache.leeway);
    if key in cache.items {
      TokenValue(cache, refs, w, w.items[key]);
      assert HandleIs(refs.slices, refs.tokens[w.items[key]], w.tokens[w.items[key]]);
    }
    found := cache.Get(key, now);
    refs' := refs;
    if found != null {
      assert hit && found.Value() == w.ValueOf(w.items[key]);
      assert Represents(cache, refs, w);
      NewTokenRepresented(cache, refs, w, found);
      refs' := WithNew(refs, found);
    } else {
      assert Represents(cache, refs, w.(items := w.items - {key}));
    }
  }

  method ActCreate(cache: MemoryCache, refs: Refs, ghost w: World, token: Token) returns (refs': Refs, made: TokenRef)
    requires Represents(cache, refs, w)
    ensures Represents(cache, refs', Next(w, Create(token), cache.leeway))
    ensures fresh(made.Parts()) && refs' == WithNew(refs, made)
  {
    made := Make(token);
    NewTokenRepresented(cache, refs, w, made);
    refs' := WithNew(refs, made);
  }

  method ActSet(cache: MemoryCache, refs: Refs, ghost w: World, key: string, i: nat)
    requires Represents(cache, refs, w)
    modifies cache
    ensures Represents(cache, refs, Next(w, DoSet(key, i), cache.leeway))
  {
    if i < |refs.tokens| {
      cache.Set(key, refs.tokens[i]);
    }
  }

  ghost predicate OthersAre(refs: Refs, w: World, i: nat)
    reads refs.tokens
  {
    |refs.tokens| == |w.tokens| &&
    forall k :: 0 <= k < |refs.tokens| && k != i ==> HandleIs(refs.slices, refs.tokens[k], w.tokens[k])
  }

  /** After overwriting the fields of token `i`, possibly with a new slice at the end of the list. */
  lemma FieldsChanged(cache: MemoryCache, refs: Refs, refs': Refs, w: World, w': World, i: nat)
    requires OthersAre(refs, w, i) && i < |refs.tokens| && refs'.tokens == refs.tokens && Distinct(refs.tokens)
    requires refs.slices <= refs'.slices && Distinct(refs'.slices) && |refs'.slices| == |w'.slices|
    requires forall k :: 0 <= k < |refs'.slices| ==> refs'.slices[k][..] == w'.slices[k]
    requires |w'.tokens| == |w.tokens| && forall k :: 0 <= k < |w.tokens| && k != i ==> w'.tokens[k] == w.tokens[k]
    requires HandleIs(refs'.slices, refs.tokens[i], w'.tokens[i])
    requires w'.items == w.items && cache.items.Keys == w.items.Keys
    requires forall key <- cache.items :: w.items[key] < |refs.tokens| && cache.items[key] == refs.tokens[w.items[key]]
    ensures Represents(cache, refs', w')
  {
    forall k | 0 <= k < |refs.tokens| ensures HandleIs(refs'.slices, refs'.tokens[k], w'.tokens[k]) {
      if k != i {
        assert HandleIs(refs.slices, refs.tokens[k], w.tokens[k]);
      }
    }
  }

  method WriteElement(cache: MemoryCache, refs: Refs, ghost w: World, i: nat, at: nat, text: string)
    requires Represents(cache, refs, w) && i < |refs.tokens|
    modifies refs.slices
    ensures Represents(cache, refs, Mutated(w, i, Write(at, text)))
  {
    assert HandleIs(refs.slices, refs.tokens[i], w.tokens[i]);
    var a := refs.tokens[i].scopes;
    if a != null && at < a.Length {
      ghost var k := w.tokens[i].scopes.value;
      assert a == refs.slices[k] && a in refs.slices;
      a[at] := text;
      ghost var w' := Mutated(w, i, Write(at, text));
      forall j | 0 <= j < |refs.slices| ensures refs.slices[j][..] == w'.slices[j] {
        assert j != k ==> refs.slices[j] != a;
      }
    }
  }

  method ReplaceSlice(cache: MemoryCache, refs: Refs, ghost w: World, i: nat, texts: Option<seq<string>>)
    returns (refs': Refs)
    requires Represents(cache, refs, w) && i < |refs.tokens|
    modifies refs.tokens
    ensures Represents(cache, refs', Mutated(w, i, NewSlice(texts))) && refs'.tokens == refs.tokens
    ensures forall a <- refs'.slices :: a in refs.slices || fresh(a)
  {
    assert HandleIs(refs.slices, refs.tokens[i], w.tokens[i]);
    refs' := refs;
    if texts.Some? {
      var made := new string[|texts.value|](k requires 0 <= k < |texts.value| => texts.value[k]);
      assert made[..] == texts.value;
      refs' := refs.(slices := refs.slices + [made]);
      refs.tokens[i].scopes := made;
    } else {
      refs.tokens[i].scopes := null;
    }
    FieldsChanged(cache, refs, refs', w, Mutated(w, i, NewSlice(texts)), i);
  }

  /** Any mutation does on the heap what it does in the world, to entries of the cache too. */
  method Apply(cache: MemoryCache, refs: Refs, ghost w: World, i: nat, how: Mutation) returns (refs': Refs)
    requires Represents(cache, refs, w) && i < |refs.tokens|
    modifies refs.tokens, refs.slices
    ensures Represents(cache, refs', Mutated(w, i, how)) && refs'.tokens == refs.tokens
    ensures forall a <- refs'.slices :: a in refs.slices || fresh(a)
  {
    refs' := refs;
    match how
    case SetScalars(scalars) =>
      assert HandleIs(refs.slices, refs.tokens[i], w.tokens[i]);
      refs.tokens[i].scalars := scalars;
      FieldsChanged(cache, refs, refs, w, Mutated(w, i, how), i);
    case Write(at, text) => WriteElement(cache, refs, w, i, at, text);
    case NewSlice(texts) => refs' := ReplaceSlice(cache, refs, w, i, texts);
    case ShareWith(other) =>
      if other < |refs.tokens| {
        assert HandleIs(refs.slices, refs.tokens[i], w.tokens[i]);
        assert HandleIs(refs.slices, refs.tokens[other], w.tokens[other]);
        refs.tokens[i].scopes := refs.tokens[other].scopes;
        FieldsChanged(cache, refs, refs, w, Mutated(w, i, how), i);
      }
  }

  ghost predicate Listed(refs: Refs, owned: set<object>) {
    (forall r <- refs.tokens :: r in owned) && (forall a <- refs.slices :: a in owned)
  }

  method Act(cache: MemoryCache, refs: Refs, ghost owned: set<object>, ghost w: World, action: Action)
    returns (refs': Refs, ghost owned': set<object>)
    requires Represents(cache, refs, w) && Listed(refs, owned)
    modifies cache, owned
    ensures Represents(cache, refs', Next(w, action, cache.leeway))
    ensures Listed(refs', owned') && owned <= owned' && fresh(owned' - owned)
  {
    refs', owned' := refs, owned;
    match action
    case Create(token) =>
      var made;
      refs', made := ActCreate(cache, refs, w, token);
      owned' := owned + made.Parts();
    case DoSet(key, i) =>
      ActSet(cache, refs, w, key, i);
    case DoGet(key, now) =>
      var found;
      refs', found := ActGet(cache, refs, w, key, now);
      owned' := owned + if found == null then {} else found.Parts();
    case Mutate(i, how) =>
      if i < |refs.tokens| {
        refs' := Apply(cache, refs, w, i, how);
        owned' := owned + set a: array<string> | a in refs'.slices && a !in refs.slices;
      }
  }

  /**
   Any script of creations, stores, lookups and mutations, of entries of the
   cache as well, ends on the heap exactly where the world model does.
   */
  method RunScript(cache: MemoryCache, refs: Refs, ghost owned: set<object>, ghost w: World, script: seq<Action>)
    returns (refs': Refs)
    requires Represents(cache, refs, w) && Listed(refs, owned)
    modifies cache, owned
    ensures Represents(cache, refs', Run(w, script, cache.leeway))
  {
    refs' := refs;
    ghost var mine := owned;
    for n := 0 to |script|
      invariant Represents(cache, refs', Run(w, script[..n], cache.leeway))
      invariant Listed(refs', mine) && owned <= mine && fresh(mine - owned)
    {
      assert Init(script[..n + 1]) == script[..n];
      refs', mine := Act(cache, refs', mine, Run(w, script[..n], cache.leeway), script[n]);
    }
    assert script[..|script|] == script;
  }
}
