/**
 The introspection result cache on the heap: claims are objects that hold
 slices and a map by reference, so sharing matters.  `Set` and `Get` copy
 deeply; a caller that mutates everything it ever passed in or was handed
 cannot change what later lookups return.
 */
module ClaimsCache {
  import opened Base
  import Ttl = TtlCache

  datatype Scalars = Scalars(subject: string, email: string, issuer: string, confirmation: string,
                             expiresAt: Option<int>, issuedAt: Option<int>)

  /** The value of a claims object; nil and empty slices are not told apart, nil and empty maps are. */
  datatype Claims = Claims(
    scalars: Scalars, audience: seq<string>, scopes: seq<string>, raw: Option<map<string, string>>)

  type View = map<string, Claims>

  // ---- The cache as a value ----

  /** A value without an expiry has the zero time, which every reading is past. */
  function ExpiryOf(c: Claims): Option<int> {
    c.scalars.expiresAt
  }

  predicate Hit(view: View, key: string, now: int, leeway: int) {
    Ttl.Hit(ExpiryOf, view, key, now, leeway)
  }

  function Lookup(view: View, key: string, now: int, leeway: int): Option<Claims> {
    if Hit(view, key, now, leeway) then Some(view[key]) else None
  }

  function AfterLookup(view: View, key: string, now: int, leeway: int): View {
    Ttl.Looked(ExpiryOf, view, key, now, leeway)
  }

  // ---- Claims on the heap ----

  class RawMap {
    var entries: map<string, string>

    constructor (entries: map<string, string>)
      ensures this.entries == entries
    {
      this.entries := entries;
    }
  }

  class ClaimsRef {
    var scalars: Scalars
    var audience: array?<string>
    var scopes: array?<string>
    var raw: RawMap?

    constructor (scalars: Scalars, audience: array?<string>, scopes: array?<string>, raw: RawMap?)
      ensures this.scalars == scalars && this.audience == audience && this.scopes == scopes && this.raw == raw
    {
      this.scalars, this.audience, this.scopes, this.raw := scalars, audience, scopes, raw;
    }

    /** The object and everything it refers to lie in `region`. */
    ghost predicate Within(region: set<object>)
      reads this
    {
      this in region && (audience != null ==> audience in region) && (scopes != null ==> scopes in region) &&
      (raw != null ==> raw in region)
    }

    ghost function Parts(): (parts: set<object>)
      reads this
      ensures Within(parts)
    {
      {this} + (if audience == null then {} else {audience}) + (if scopes == null then {} else {scopes}) +
      (if raw == null then {} else {raw})
    }

    ghost function Value(): Claims
      reads this, audience, scopes, raw
    {
      Claims(scalars, Contents(audience), Contents(scopes), if raw == null then None else Some(raw.entries))
    }

    /** As a copy has it: no empty slice, and no slice shared between the two fields. */
    ghost predicate Unshared()
      reads this
    {
      && (audience != null ==> audience.Length > 0 && audience != scopes)
      && (scopes != null ==> scopes.Length > 0)
    }
  }

  ghost function Contents(a: array?<string>): seq<string>
    reads a
  {
    if a == null then [] else a[..]
  }

  /** append([]string(nil), a...): nil when there is nothing to append. */
  method CopySlice(a: array?<string>) returns (b: array?<string>)
    ensures b != null ==> fresh(b) && b.Length > 0
    ensures Contents(b) == Contents(a)
  {
    if a == null || a.Length == 0 {
      return null;
    }
    var copy := new string[a.Length](_ => "");
    for i := 0 to a.Length
      invariant copy[..i] == a[..i]
    {
      copy[i] := a[i];
      assert a[..i + 1] == a[..i] + [a[i]];
    }
    assert a[..a.Length] == a[..] && copy[..a.Length] == copy[..];
    b := copy;
  }

  method CopyRaw(raw: RawMap?) returns (copy: RawMap?)
    ensures copy != null ==> fresh(copy)
    ensures (copy == null) == (raw == null) && (copy != null ==> copy.entries == raw.entries)
  {
    if raw == null {
      return null;
    }
    copy := new RawMap(map[]);
    var pending := raw.entries.Keys;
    while pending != {}
      invariant pending <= raw.entries.Keys && raw.entries == old(raw.entries)
      invariant copy.entries == map k | k in raw.entries && k !in pending :: raw.entries[k]
      decreases pending
    {
      var k :| k in pending;
      copy.entries := copy.entries[k := raw.entries[k]];
      pending := pending - {k};
    }
  }

  method CopyClaims(c: ClaimsRef) returns (cp: ClaimsRef)
    ensures fresh(cp.Parts()) && cp.Unshared() && cp.Value() == old(c.Value())
  {
    var audience := CopySlice(c.audience);
    var scopes := CopySlice(c.scopes);
    var raw := CopyRaw(c.raw);
    cp := new ClaimsRef(c.scalars, audience, scopes, raw);
  }

  // ---- The cache on the heap ----

  class MemoryCache {
    const leeway: int
    var items: map<string, ClaimsRef>
    ghost var view: View          // the value of every stored entry
    ghost var repr: set<object>   // every object reachable from a stored entry

    ghost predicate Valid()
      reads this, repr
    {
      && this !in repr && view.Keys == items.Keys
      && forall key <- items :: items[key] in repr && items[key].Within(repr) && items[key].Value() == view[key]
    }

    constructor (leeway: int)
      ensures Valid() && this.leeway == leeway && view == map[] && repr == {}
    {
      this.leeway := leeway;
      items, view, repr := map[], map[], {};
    }

    method Set(key: string, claims: ClaimsRef)
      requires Valid()
      modifies this
      ensures Valid() && fresh(repr - old(repr))
      ensures view == old(view)[key := old(claims.Value())]
    {
      var cp := CopyClaims(claims);
      ghost var before := items;
      items, view := items[key := cp], view[key := cp.Value()];
      repr := repr + cp.Parts();
      forall k | k in items ensures items[k] in repr && items[k].Within(repr) && items[k].Value() == view[k] {
        if k != key {
          assert before[k] in old(repr) && before[k].Within(old(repr));
        }
      }
    }

    method Get(key: string, now: int) returns (found: ClaimsRef?)
      requires Valid()
      modifies this
      ensures Valid() && repr == old(repr)
      ensures view == AfterLookup(old(view), key, now, leeway)
      ensures found != null ==> fresh(found.Parts()) && found.Unshared()
      ensures Lookup(old(view), key, now, leeway) == if found == null then None else Some(found.Value())
    {
      if key !in items {
        assert view - {key} == view;
        return null;
      }
      var claims := items[key];
      if claims.scalars.expiresAt.None? || !(now < claims.scalars.expiresAt.value - leeway) {
        items, view := items - {key}, view - {key};
        return null;
      }
      found := CopyClaims(claims);
    }
  }

  // ---- Callers' claims, with their sharing, as values ----

  datatype Slot = Audience | ScopeList

  /** A claims object: its slices and its map are numbers, so that two objects can share one. */
  datatype Handle = Handle(scalars: Scalars, audience: Option<nat>, scopes: Option<nat>, raw: Option<nat>)
  {
    function At(slot: Slot): Option<nat> {
      if slot.Audience? then audience else scopes
    }

    function With(slot: Slot, id: Option<nat>): Handle {
      if slot.Audience? then this.(audience := id) else this.(scopes := id)
    }
  }

  /** Everything callers hold, and the cache's value. */
  datatype World = World(held: seq<Handle>, slices: seq<seq<string>>, maps: seq<map<string, string>>, view: View)
  {
    function Text(id: Option<nat>): seq<string> {
      if id.Some? && id.value < |slices| then slices[id.value] else []
    }

    function Entries(id: Option<nat>): Option<map<string, string>> {
      if id.Some? && id.value < |maps| then Some(maps[id.value]) else None
    }

    function ValueOf(h: Handle): Claims {
      Claims(h.scalars, Text(h.audience), Text(h.scopes), Entries(h.raw))
    }
  }

  /** What a caller can do to claims it holds. */
  datatype Mutation =
    | SetScalars(scalars: Scalars)
    | Write(slot: Slot, at: nat, text: string)
    | NewSlice(slot: Slot, texts: Option<seq<string>>)
    | NewRaw(entries: Option<map<string, string>>)
    | SetRaw(contents: map<string, string>)   // any puts and deletes on the map it has
    | ShareWith(other: nat)

  datatype Action = DoSet(key: string, claims: nat) | DoGet(key: string, now: int) | Mutate(claims: nat, how: Mutation)

  function Mutated(w: World, i: nat, how: Mutation): World
    requires i < |w.held|
  {
    var h := w.held[i];
    match how
    case SetScalars(scalars) => w.(held := w.held[i := h.(scalars := scalars)])
    case Write(slot, at, text) =>
      var id := h.At(slot);
      if id.Some? && id.value < |w.slices| && at < |w.slices[id.value]|
      then w.(slices := w.slices[id.value := w.slices[id.value][at := text]]) else w
    case NewSlice(slot, texts) =>
      if texts.None? then w.(held := w.held[i := h.With(slot, None)])
      else w.(held := w.held[i := h.With(slot, Some(|w.slices|))], slices := w.slices + [texts.value])
    case NewRaw(entries) =>
      if entries.None? then w.(held := w.held[i := h.(raw := None)])
      else w.(held := w.held[i := h.(raw := Some(|w.maps|))], maps := w.maps + [entries.value])
    case SetRaw(contents) =>
      if h.raw.Some? && h.raw.value < |w.maps| then w.(maps := w.maps[h.raw.value := contents]) else w
    case ShareWith(other) =>
      if other < |w.held|
      then w.(held := w.held[i := Handle(h.scalars, w.held[other].audience, w.held[other].scopes, w.held[other].raw)])
      else w
  }

  function AddSlice(slices: seq<seq<string>>, texts: seq<string>): seq<seq<string>> {
    if texts == [] then slices else slices + [texts]
  }

  function IdFor(slices: seq<seq<string>>, texts: seq<string>): Option<nat> {
    if texts == [] then None else Some(|slices|)
  }

  /** A fresh object with value `c` comes into a caller's hands. */
  function HandedOut(w: World, c: Claims): World {
    var slices := AddSlice(w.slices, c.audience);
    var h := Handle(c.scalars, IdFor(w.slices, c.audience), IdFor(slices, c.scopes),
                    if c.raw.None? then None else Some(|w.maps|));
    w.(held := w.held + [h], slices := AddSlice(slices, c.scopes),
       maps := if c.raw.None? then w.maps else w.maps + [c.raw.value])
  }

  function Next(w: World, action: Action, leeway: int): World {
    match action
    case DoSet(key, i) => if i < |w.held| then w.(view := w.view[key := w.ValueOf(w.held[i])]) else w
    case DoGet(key, now) =>
      var looked := w.(view := AfterLookup(w.view, key, now, leeway));
      if Hit(w.view, key, now, leeway) then HandedOut(looked, w.view[key]) else looked
    case Mutate(i, how) => if i < |w.held| then Mutated(w, i, how) else w
  }

  function Run(w: World, script: seq<Action>, leeway: int): World {
    if script == [] then w else Next(Run(w, Init(script), leeway), Last(script), leeway)
  }

  // ---- What lookups return, whatever callers do ----

  /** What the cache was told and the value of what it handed out, in order; mutations leave no entry. */
  datatype Entry = WasSet(key: string, value: Claims) | WasGot(key: string, now: int, answer: Option<Claims>)

  function Logged(w: World, action: Action, leeway: int): seq<Entry> {
    match action
    case DoSet(key, i) => if i < |w.held| then [WasSet(key, w.ValueOf(w.held[i]))] else []
    case DoGet(key, now) =>
      var w' := Next(w, action, leeway);
      [WasGot(key, now, if |w'.held| > |w.held| then Some(w'.ValueOf(Last(w'.held))) else None)]
    case Mutate(_, _) => []
  }

  function LogOf(w: World, script: seq<Action>, leeway: int): seq<Entry> {
    if script == [] then []
    else LogOf(w, Init(script), leeway) + Logged(Run(w, Init(script), leeway), Last(script), leeway)
  }

  function Advance(view: View, e: Entry, leeway: int): View {
    if e.WasSet? then view[e.key := e.value] else AfterLookup(view, e.key, e.now, leeway)
  }

  /** The value-level cache, in which mutations do not exist, over a log. */
  function ViewAfterLog(log: seq<Entry>, start: View, leeway: int): View {
    if log == [] then start else Advance(ViewAfterLog(Init(log), start, leeway), Last(log), leeway)
  }

  ghost predicate Explained(log: seq<Entry>, start: View, leeway: int) {
    forall i :: 0 <= i < |log| && log[i].WasGot? ==>
      log[i].answer == Lookup(ViewAfterLog(log[..i], start, leeway), log[i].key, log[i].now, leeway)
  }

  lemma HandedOutValue(w: World, c: Claims)
    ensures HandedOut(w, c).ValueOf(Last(HandedOut(w, c).held)) == c
  {
  }

  lemma ExplainedGrows(log: seq<Entry>, e: Entry, start: View, leeway: int)
    requires Explained(log, start, leeway)
    requires e.WasGot? ==> e.answer == Lookup(ViewAfterLog(log, start, leeway), e.key, e.now, leeway)
    ensures Explained(log + [e], start, leeway)
    ensures ViewAfterLog(log + [e], start, leeway) == Advance(ViewAfterLog(log, start, leeway), e, leeway)
  {
    assert Init(log + [e]) == log;
    forall i | 0 <= i < |log| + 1 && (log + [e])[i].WasGot?
      ensures (log + [e])[i].answer ==
              Lookup(ViewAfterLog((log + [e])[..i], start, leeway), (log + [e])[i].key, (log + [e])[i].now, leeway)
    {
      assert (log + [e])[..i] == if i < |log| then log[..i] else log;
    }
  }

  /** A lookup hands out the stored value; a mutation of anything held leaves the cache's value alone. */
  lemma StepIsLogged(w: World, action: Action, leeway: int)
    ensures action.Mutate? ==> Logged(w, action, leeway) == []
    ensures var entries := Logged(w, action, leeway);
            |entries| <= 1 && if entries == [] then Next(w, action, leeway).view == w.view
            else Next(w, action, leeway).view == Advance(w.view, entries[0], leeway) &&
                 (entries[0].WasGot? ==> entries[0].answer == Lookup(w.view, entries[0].key, entries[0].now, leeway))
  {
    if action.DoGet? && Hit(w.view, action.key, action.now, leeway) {
      HandedOutValue(w.(view := AfterLookup(w.view, action.key, action.now, leeway)), w.view[action.key]);
    }
  }

  /**
   Mutations are invisible: over any script, every object handed out has the
   value that a value-level cache gives for the stores alone, and so has the cache.
   */
  lemma {:induction false} MutationsAreInvisible(w: World, script: seq<Action>, leeway: int)
    ensures Explained(LogOf(w, script, leeway), w.view, leeway)
    ensures Run(w, script, leeway).view == ViewAfterLog(LogOf(w, script, leeway), w.view, leeway)
    decreases |script|
  {
    if script != [] {
      MutationsAreInvisible(w, Init(script), leeway);
      var before, log := Run(w, Init(script), leeway), LogOf(w, Init(script), leeway);
      var entries := Logged(before, Last(script), leeway);
      StepIsLogged(before, Last(script), leeway);
      if entries == [] {
        assert log + entries == log;
      } else {
        ExplainedGrows(log, entries[0], w.view, leeway);
        assert log + entries == log + [entries[0]];
      }
    }
  }

  // ---- The same script on the heap ----

  ghost predicate Distinct<T>(xs: seq<T>) {
    forall i, j :: 0 <= i < j < |xs| ==> xs[i] != xs[j]
  }

  /** The objects behind a world's numbers. */
  datatype Refs = Refs(held: seq<ClaimsRef>, slices: seq<array<string>>, maps: seq<RawMap>)

  ghost predicate SliceIs(slices: seq<array<string>>, a: array?<string>, id: Option<nat>) {
    if id.None? then a == null else id.value < |slices| && a == slices[id.value]
  }

  ghost predicate MapIs(maps: seq<RawMap>, m: RawMap?, id: Option<nat>) {
    if id.None? then m == null else id.value < |maps| && m == maps[id.value]
  }

  ghost predicate HandleIs(refs: Refs, r: ClaimsRef, h: Handle)
    reads r
  {
    && r.scalars == h.scalars
    && SliceIs(refs.slices, r.audience, h.audience) && SliceIs(refs.slices, r.scopes, h.scopes)
    && MapIs(refs.maps, r.raw, h.raw)
  }

  /** The heap holds the world's claims, slices and maps, with exactly the world's sharing. */
  ghost predicate Matches(refs: Refs, w: World)
    reads refs.held, refs.slices, refs.maps
  {
    && Distinct(refs.held) && Distinct(refs.slices) && Distinct(refs.maps)
    && |refs.held| == |w.held| && |refs.slices| == |w.slices| && |refs.maps| == |w.maps|
    && (forall i :: 0 <= i < |refs.held| ==> HandleIs(refs, refs.held[i], w.held[i]))
    && (forall k :: 0 <= k < |refs.slices| ==> refs.slices[k][..] == w.slices[k])
    && (forall k :: 0 <= k < |refs.maps| ==> refs.maps[k].entries == w.maps[k])
  }

  /** Nothing callers can reach is reachable from the cache. */
  ghost predicate Apart(refs: Refs, region: set<object>) {
    && (forall r <- refs.held :: r !in region)
    && (forall a <- refs.slices :: a !in region)
    && (forall m <- refs.maps :: m !in region)
  }

  ghost predicate Represents(cache: MemoryCache, refs: Refs, w: World)
    reads cache, cache.repr, refs.held, refs.slices, refs.maps
  {
    cache.Valid() && cache.view == w.view && Matches(refs, w) && Apart(refs, cache.repr)
  }

  ghost predicate Grows(refs: Refs, refs': Refs) {
    refs.held <= refs'.held && refs.slices <= refs'.slices && refs.maps <= refs'.maps
  }

  lemma HeldValue(refs: Refs, w: World, i: nat)
    requires Matches(refs, w) && i < |refs.held|
    ensures refs.held[i].Value() == w.ValueOf(w.held[i])
  {
    assert HandleIs(refs, refs.held[i], w.held[i]);
  }

  method ActSet(cache: MemoryCache, refs: Refs, ghost w: World, key: string, i: nat)
    requires Represents(cache, refs, w)
    modifies cache
    ensures Represents(cache, refs, Next(w, DoSet(key, i), cache.leeway)) && fresh(cache.repr - old(cache.repr))
  {
    if i < |refs.held| {
      HeldValue(refs, w, i);
      cache.Set(key, refs.held[i]);
    }
  }

  /** Lists a new object's slices and map after the known ones. */
  function WithNew(refs: Refs, r: ClaimsRef): Refs
    reads r
  {
    Refs(refs.held + [r],
         refs.slices +
         (if r.audience == null then [] else [r.audience]) + (if r.scopes == null then [] else [r.scopes]),
         refs.maps + if r.raw == null then [] else [r.raw])
  }

  ghost predicate New(refs: Refs, r: ClaimsRef)
    reads r
  {
    && r !in refs.held && (r.audience != null ==> r.audience !in refs.slices)
    && (r.scopes != null ==> r.scopes !in refs.slices) && (r.raw != null ==> r.raw !in refs.maps)
  }

  lemma NewSlicesMatch(refs: Refs, w: World, r: ClaimsRef)
    requires Matches(refs, w) && New(refs, r) && r.Unshared()
    ensures var slices, slices' := WithNew(refs, r).slices, HandedOut(w, r.Value()).slices;
            && Distinct(slices) && |slices| == |slices'|
            && (forall k :: 0 <= k < |slices| ==> slices[k][..] == slices'[k])
  {
  }

  lemma HandleStays(refs: Refs, refs': Refs, r: ClaimsRef, h: Handle)
    requires HandleIs(refs, r, h) && Grows(refs, refs')
    ensures HandleIs(refs', r, h)
  {
  }

  lemma NewHandle(refs: Refs, w: World, r: ClaimsRef)
    requires |refs.slices| == |w.slices| && |refs.maps| == |w.maps| && r.Unshared()
    ensures HandleIs(WithNew(refs, r), r, Last(HandedOut(w, r.Value()).held))
  {
  }

  lemma NewObjectMatches(refs: Refs, w: World, r: ClaimsRef)
    requires Matches(refs, w) && New(refs, r) && r.Unshared()
    ensures Matches(WithNew(refs, r), HandedOut(w, r.Value()))
  {
    var refs', w' := WithNew(refs, r), HandedOut(w, r.Value());
    NewSlicesMatch(refs, w, r);
    NewHandle(refs, w, r);
    forall i | 0 <= i < |refs.held| ensures HandleIs(refs', refs'.held[i], w'.held[i]) {
      HandleStays(refs, refs', refs.held[i], w.held[i]);
    }
  }

  lemma NewObjectApart(refs: Refs, r: ClaimsRef, region: set<object>)
    requires Apart(refs, region) && r.Parts() !! region
    ensures Apart(WithNew(refs, r), region) && Grows(refs, WithNew(refs, r))
  {
  }

  lemma LookupStep(w: World, key: string, now: int, leeway: int)
    ensures var answer := Lookup(w.view, key, now, leeway);
            var looked := w.(view := AfterLookup(w.view, key, now, leeway));
            Next(w, DoGet(key, now), leeway) == if answer.Some? then HandedOut(looked, answer.value) else looked
  {
  }

  /** Everything known is old, and so not part of a new object. */
  twostate lemma FreshIsNew(refs: Refs, new r: ClaimsRef)
    requires fresh(r.Parts())
    ensures New(refs, r)
  {
  }

  method ActGet(cache: MemoryCache, refs: Refs, ghost w: World, key: string, now: int)
    returns (refs': Refs, found: ClaimsRef?)
    requires Represents(cache, refs, w)
    modifies cache
    ensures Represents(cache, refs', Next(w, DoGet(key, now), cache.leeway)) && Grows(refs, refs')
    ensures cache.repr == old(cache.repr)
    ensures found == null ==> refs' == refs
    ensures found != null ==> refs' == WithNew(refs, found) && fresh(found.Parts())
    ensures Lookup(w.view, key, now, cache.leeway) == if found == null then None else Some(found.Value())
  {
    found := cache.Get(key, now);
    LookupStep(w, key, now, cache.leeway);
    ghost var looked := w.(view := AfterLookup(w.view, key, now, cache.leeway));
    assert Matches(refs, looked) && Apart(refs, cache.repr);
    refs' := refs;
    if found != null {
      FreshIsNew(refs, found);
      NewObjectMatches(refs, looked, found);
      NewObjectApart(refs, found, cache.repr);
      refs' := WithNew(refs, found);
    }
  }

  ghost predicate OthersMatch(refs: Refs, w: World, i: nat)
    reads refs.held
  {
    |refs.held| == |w.held| && forall k :: 0 <= k < |refs.held| && k != i ==> HandleIs(refs, refs.held[k], w.held[k])
  }

  /** After overwriting the fields of one held object, possibly with new slices or maps at the end of the lists. */
  lemma FieldsChanged(refs: Refs, refs': Refs, w: World, w': World, i: nat)
    requires OthersMatch(refs, w, i) && i < |refs.held| && refs'.held == refs.held && Distinct(refs.held)
    requires refs.slices <= refs'.slices && refs.maps <= refs'.maps
    requires Distinct(refs'.slices) && Distinct(refs'.maps)
    requires |w'.held| == |w.held| && forall k :: 0 <= k < |w.held| && k != i ==> w'.held[k] == w.held[k]
    requires |refs'.slices| == |w'.slices| && forall k :: 0 <= k < |w'.slices| ==> refs'.slices[k][..] == w'.slices[k]
    requires |refs'.maps| == |w'.maps| && forall k :: 0 <= k < |w'.maps| ==> refs'.maps[k].entries == w'.maps[k]
    requires HandleIs(refs', refs.held[i], w'.held[i])
    ensures Matches(refs', w')
  {
    forall k | 0 <= k < |refs.held| ensures HandleIs(refs', refs'.held[k], w'.held[k]) {
      if k != i {
        assert HandleIs(refs, refs.held[k], w.held[k]);
      }
    }
  }

  method MakeSlice(texts: seq<string>) returns (a: array<string>)
    ensures fresh(a) && a[..] == texts
  {
    a := new string[|texts|](i requires 0 <= i < |texts| => texts[i]);
  }

  method SetFields(refs: Refs, ghost w: World, i: nat, scalars: Scalars)
    requires Matches(refs, w) && i < |refs.held|
    modifies refs.held
    ensures Matches(refs, Mutated(w, i, SetScalars(scalars)))
  {
    assert HandleIs(refs, refs.held[i], w.held[i]);
    refs.held[i].scalars := scalars;
    FieldsChanged(refs, refs, w, Mutated(w, i, SetScalars(scalars)), i);
  }

  method WriteElement(refs: Refs, ghost w: World, i: nat, slot: Slot, at: nat, text: string)
    requires Matches(refs, w) && i < |refs.held|
    modifies refs.slices
    ensures Matches(refs, Mutated(w, i, Write(slot, at, text)))
  {
    assert HandleIs(refs, refs.held[i], w.held[i]);
    var a := if slot.Audience? then refs.held[i].audience else refs.held[i].scopes;
    if a != null && at < a.Length {
      ghost var k := w.held[i].At(slot).value;
      assert a == refs.slices[k] && a in refs.slices;
      a[at] := text;
      ghost var w' := Mutated(w, i, Write(slot, at, text));
      forall j | 0 <= j < |refs.slices| ensures refs.slices[j][..] == w'.slices[j] {
        assert j != k ==> refs.slices[j] != a;
      }
    }
  }

  method ReplaceSlice(refs: Refs, ghost w: World, i: nat, slot: Slot, texts: Option<seq<string>>) returns (refs': Refs)
    requires Matches(refs, w) && i < |refs.held|
    modifies refs.held
    ensures Matches(refs', Mutated(w, i, NewSlice(slot, texts))) && Grows(refs, refs')
    ensures refs'.held == refs.held && refs'.maps == refs.maps
    ensures forall a <- refs'.slices :: a in refs.slices || fresh(a)
  {
    assert HandleIs(refs, refs.held[i], w.held[i]);
    var a: array?<string> := null;
    refs' := refs;
    if texts.Some? {
      var made := MakeSlice(texts.value);
      a := made;
      refs' := refs.(slices := refs.slices + [made]);
    }
    if slot.Audience? {
      refs.held[i].audience := a;
    } else {
      refs.held[i].scopes := a;
    }
    FieldsChanged(refs, refs', w, Mutated(w, i, NewSlice(slot, texts)), i);
  }

  method ReplaceRaw(refs: Refs, ghost w: World, i: nat, entries: Option<map<string, string>>) returns (refs': Refs)
    requires Matches(refs, w) && i < |refs.held|
    modifies refs.held
    ensures Matches(refs', Mutated(w, i, NewRaw(entries))) && Grows(refs, refs')
    ensures refs'.held == refs.held && refs'.slices == refs.slices
    ensures forall m <- refs'.maps :: m in refs.maps || fresh(m)
  {
    assert HandleIs(refs, refs.held[i], w.held[i]);
    refs' := refs;
    if entries.Some? {
      var made := new RawMap(entries.value);
      refs' := refs.(maps := refs.maps + [made]);
      refs.held[i].raw := made;
    } else {
      refs.held[i].raw := null;
    }
    FieldsChanged(refs, refs', w, Mutated(w, i, NewRaw(entries)), i);
  }

  method WriteRaw(refs: Refs, ghost w: World, i: nat, contents: map<string, string>)
    requires Matches(refs, w) && i < |refs.held|
    modifies refs.maps
    ensures Matches(refs, Mutated(w, i, SetRaw(contents)))
  {
    assert HandleIs(refs, refs.held[i], w.held[i]);
    var m := refs.held[i].raw;
    if m != null {
      ghost var k := w.held[i].raw.value;
      assert m == refs.maps[k] && m in refs.maps;
      m.entries := contents;
      ghost var w' := Mutated(w, i, SetRaw(contents));
      forall j | 0 <= j < |refs.maps| ensures refs.maps[j].entries == w'.maps[j] {
        assert j != k ==> refs.maps[j] != m;
      }
    }
  }

  method Share(refs: Refs, ghost w: World, i: nat, other: nat)
    requires Matches(refs, w) && i < |refs.held|
    modifies refs.held
    ensures Matches(refs, Mutated(w, i, ShareWith(other)))
  {
    if other < |refs.held| {
      assert HandleIs(refs, refs.held[i], w.held[i]) && HandleIs(refs, refs.held[other], w.held[other]);
      var from := refs.held[other];
      refs.held[i].audience, refs.held[i].scopes, refs.held[i].raw := from.audience, from.scopes, from.raw;
      FieldsChanged(refs, refs, w, Mutated(w, i, ShareWith(other)), i);
    }
  }

  /** Any mutation does on the heap what it does in the world. */
  method Apply(refs: Refs, ghost w: World, i: nat, how: Mutation) returns (refs': Refs)
    requires Matches(refs, w) && i < |refs.held|
    modifies refs.held, refs.slices, refs.maps
    ensures Matches(refs', Mutated(w, i, how)) && Grows(refs, refs') && refs'.held == refs.held
    ensures forall a <- refs'.slices :: a in refs.slices || fresh(a)
    ensures forall m <- refs'.maps :: m in refs.maps || fresh(m)
  {
    refs' := refs;
    match how
    case SetScalars(scalars) => SetFields(refs, w, i, scalars);
    case Write(slot, at, text) => WriteElement(refs, w, i, slot, at, text);
    case NewSlice(slot, texts) => refs' := ReplaceSlice(refs, w, i, slot, texts);
    case NewRaw(entries) => refs' := ReplaceRaw(refs, w, i, entries);
    case SetRaw(contents) => WriteRaw(refs, w, i, contents);
    case ShareWith(other) => Share(refs, w, i, other);
  }

  method ActMutate(cache: MemoryCache, refs: Refs, ghost w: World, i: nat, how: Mutation) returns (refs': Refs)
    requires Represents(cache, refs, w)
    modifies refs.held, refs.slices, refs.maps
    ensures Represents(cache, refs', Next(w, Mutate(i, how), cache.leeway))
    ensures Grows(refs, refs') && refs'.held == refs.held
    ensures forall a <- refs'.slices :: a in refs.slices || fresh(a)
    ensures forall m <- refs'.maps :: m in refs.maps || fresh(m)
  {
    refs' := refs;
    if i < |refs.held| {
      refs' := Apply(refs, w, i, how);
    }
  }

  ghost predicate Listed(refs: Refs, owned: set<object>) {
    && (forall r <- refs.held :: r in owned)
    && (forall a <- refs.slices :: a in owned)
    && (forall m <- refs.maps :: m in owned)
  }

  ghost function Objects(refs: Refs): set<object> {
    (set r <- refs.held :: r as object) + (set a <- refs.slices :: a as object) + (set m <- refs.maps :: m as object)
  }

  lemma NewObjectListed(refs: Refs, r: ClaimsRef, owned: set<object>)
    requires Listed(refs, owned)
    ensures Listed(WithNew(refs, r), owned + r.Parts())
  {
  }

  method GetListed(cache: MemoryCache, refs: Refs, ghost owned: set<object>, ghost w: World, key: string, now: int)
    returns (refs': Refs, ghost owned': set<object>)
    requires Represents(cache, refs, w) && Listed(refs, owned)
    modifies cache
    ensures Represents(cache, refs', Next(w, DoGet(key, now), cache.leeway)) && Grows(refs, refs')
    ensures Listed(refs', owned') && owned <= owned' && fresh(owned' - owned)
  {
    var found;
    refs', found := ActGet(cache, refs, w, key, now);
    owned' := owned;
    if found != null {
      NewObjectListed(refs, found, owned);
      owned' := owned + found.Parts();
    }
  }

  method MutateListed(cache: MemoryCache, refs: Refs, ghost owned: set<object>, ghost w: World, i: nat, how: Mutation)
    returns (refs': Refs, ghost owned': set<object>)
    requires Represents(cache, refs, w) && Listed(refs, owned)
    modifies owned
    ensures Represents(cache, refs', Next(w, Mutate(i, how), cache.leeway)) && Grows(refs, refs')
    ensures Listed(refs', owned') && owned <= owned' && fresh(owned' - owned)
  {
    refs' := ActMutate(cache, refs, w, i, how);
    owned' := owned + Objects(refs');
  }

  method Act(cache: MemoryCache, refs: Refs, ghost owned: set<object>, ghost w: World, action: Action)
    returns (refs': Refs, ghost owned': set<object>)
    requires Represents(cache, refs, w) && Listed(refs, owned)
    modifies cache, owned
    ensures Represents(cache, refs', Next(w, action, cache.leeway)) && Grows(refs, refs')
    ensures Listed(refs', owned') && owned <= owned' && fresh(owned' - owned)
  {
    match action
    case DoSet(key, i) =>
      ActSet(cache, refs, w, key, i);
      refs', owned' := refs, owned;
    case DoGet(key, now) =>
      refs', owned' := GetListed(cache, refs, owned, w, key, now);
    case Mutate(i, how) =>
      refs', owned' := MutateListed(cache, refs, owned, w, i, how);
  }

  /**
   Any script of stores, lookups and mutations of everything callers hold, run
   on the heap, ends where the world model does: the cache's value, every held
   object and all sharing between them are exactly `Run(w, script)`.
   */
  method RunScript(cache: MemoryCache, refs: Refs, ghost owned: set<object>, ghost w: World, script: seq<Action>)
    returns (refs': Refs)
    requires Represents(cache, refs, w) && Listed(refs, owned)
    modifies cache, owned
    ensures Represents(cache, refs', Run(w, script, cache.leeway)) && Grows(refs, refs')
  {
    refs' := refs;
    ghost var mine := owned;
    for n := 0 to |script|
      invariant Represents(cache, refs', Run(w, script[..n], cache.leeway)) && Grows(refs, refs')
      invariant Listed(refs', mine) && owned <= mine && fresh(mine - owned)
    {
      assert Init(script[..n + 1]) == script[..n];
      refs', mine := Act(cache, refs', mine, Run(w, script[..n], cache.leeway), script[n]);
    }
    assert script[..|script|] == script;
  }
}
