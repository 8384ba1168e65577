/**
 The exchange cache's key: subject|audience|types|sorted scopes.  It identifies
 a caller's request up to the order of its scopes.
 */
module TokenKey {
  import opened Base
  import opened Scopes

  // ---- sort.Strings ----

  /** Lexicographic order, as Go compares strings. */
  predicate Leq(a: string, b: string) {
    a == "" || (b != "" && (a[0] < b[0] || (a[0] == b[0] && Leq(a[1..], b[1..]))))
  }

  lemma {:induction false} LeqTotal(a: string, b: string)
    ensures Leq(a, b) || Leq(b, a)
  {
    if a != "" && b != "" && a[0] == b[0] {
      LeqTotal(a[1..], b[1..]);
    }
  }

  lemma {:induction false} LeqAntisymmetric(a: string, b: string)
    requires Leq(a, b) && Leq(b, a)
    ensures a == b
  {
    if a != "" && b != "" {
      LeqAntisymmetric(a[1..], b[1..]);
      assert a == [a[0]] + a[1..] && b == [b[0]] + b[1..];
    }
  }

  lemma {:induction false} LeqTransitive(a: string, b: string, c: string)
    requires Leq(a, b) && Leq(b, c)
    ensures Leq(a, c)
  {
    if a != "" && a[0] == b[0] == c[0] {
      LeqTransitive(a[1..], b[1..], c[1..]);
    }
  }

  predicate Sorted(xs: seq<string>) {
    forall i, j :: 0 <= i < j < |xs| ==> Leq(xs[i], xs[j])
  }

  function Insert(x: string, xs: seq<string>): seq<string> {
    if xs == [] || Leq(x, xs[0]) then [x] + xs else [xs[0]] + Insert(x, xs[1..])
  }

  function Sort(xs: seq<string>): seq<string> {
    if xs == [] then [] else Insert(xs[0], Sort(xs[1..]))
  }

  lemma {:induction false} InsertIsPermutation(x: string, xs: seq<string>)
    ensures multiset(Insert(x, xs)) == multiset(xs) + multiset{x}
  {
    if xs != [] && !Leq(x, xs[0]) {
      InsertIsPermutation(x, xs[1..]);
      assert xs == [xs[0]] + xs[1..];
    }
  }

  /** A lower bound of a sorted list goes in front. */
  lemma SortedFront(x: string, xs: seq<string>)
    requires Sorted(xs) && forall y | y in multiset(xs) :: Leq(x, y)
    ensures Sorted([x] + xs)
  {
    forall j | 0 <= j < |xs| ensures Leq(x, xs[j]) {
      assert xs[j] in multiset(xs);
    }
  }

  lemma {:induction false} InsertIsSorted(x: string, xs: seq<string>)
    requires Sorted(xs)
    ensures Sorted(Insert(x, xs))
  {
    if xs != [] {
      LeqTotal(x, xs[0]);
      var front := if Leq(x, xs[0]) then x else xs[0];
      forall y | y in multiset(xs) + multiset{x} ensures Leq(front, y) || front == y {
        if y in multiset(xs) {
          HeadIsLeast(xs, y);
          if front == x && xs[0] != y {
            LeqTransitive(x, xs[0], y);
          }
        }
      }
      if Leq(x, xs[0]) {
        forall y | y in multiset(xs) ensures Leq(x, y) {
          LeqTotal(y, y);
        }
        SortedFront(x, xs);
      } else {
        InsertIsSorted(x, xs[1..]);
        InsertIsPermutation(x, xs[1..]);
        assert xs == [xs[0]] + xs[1..];
        forall y | y in multiset(Insert(x, xs[1..])) ensures Leq(xs[0], y) {
          LeqTotal(y, y);
        }
        SortedFront(xs[0], Insert(x, xs[1..]));
      }
    }
  }

  lemma {:induction false} SortIsSorted(xs: seq<string>)
    ensures Sorted(Sort(xs)) && multiset(Sort(xs)) == multiset(xs)
  {
    if xs != [] {
      SortIsSorted(xs[1..]);
      InsertIsSorted(xs[0], Sort(xs[1..]));
      InsertIsPermutation(xs[0], Sort(xs[1..]));
      assert xs == [xs[0]] + xs[1..];
    }
  }

  /** The head of a sorted list is below every member of its multiset. */
  lemma HeadIsLeast(xs: seq<string>, x: string)
    requires Sorted(xs) && x in multiset(xs)
    ensures xs != [] && (xs[0] == x || Leq(xs[0], x))
  {
  }

  /** A multiset has only one sorted arrangement. */
  lemma {:induction false} SortedIsUnique(xs: seq<string>, ys: seq<string>)
    requires Sorted(xs) && Sorted(ys) && multiset(xs) == multiset(ys)
    ensures xs == ys
    decreases |xs|
  {
    assert |xs| == |multiset(xs)| && |ys| == |multiset(ys)|;
    if xs != [] {
      assert xs[0] in multiset(xs) && ys[0] in multiset(ys);
      HeadIsLeast(ys, xs[0]);
      HeadIsLeast(xs, ys[0]);
      if xs[0] != ys[0] {
        LeqAntisymmetric(xs[0], ys[0]);
      }
      assert xs == [xs[0]] + xs[1..] && ys == [ys[0]] + ys[1..];
      assert multiset(xs) == multiset{xs[0]} + multiset(xs[1..]);
      assert multiset(ys) == multiset{ys[0]} + multiset(ys[1..]);
      TailsAgree(multiset(xs[1..]), multiset(ys[1..]), xs[0]);
      SortedIsUnique(xs[1..], ys[1..]);
    }
  }

  lemma TailsAgree(m: multiset<string>, n: multiset<string>, x: string)
    requires multiset{x} + m == multiset{x} + n
    ensures m == n
  {
    assert m == multiset{x} + m - multiset{x};
    assert n == multiset{x} + n - multiset{x};
  }

  // ---- cacheKey ----

  datatype Identity = Identity(
    subject: string, audience: string, subjectTokenType: string, requestedTokenType: string, scope: seq<string>)

  function CacheKey(id: Identity): string {
    id.subject + "|" + (id.audience + "|" + (id.subjectTokenType + "|" + (id.requestedTokenType + "|" +
    ScopeField(id))))
  }

  predicate BarFreeFields(id: Identity) {
    BarFree(id.subject) && BarFree(id.audience) && BarFree(id.subjectTokenType) && BarFree(id.requestedTokenType)
  }

  predicate Clean(id: Identity) {
    BarFreeFields(id) && forall w <- id.scope :: Word(w)
  }

  /** The last field of the key. */
  function ScopeField(id: Identity): string {
    Join(Sort(id.scope), " ")
  }

  predicate SameFields(a: Identity, b: Identity) {
    && a.subject == b.subject && a.audience == b.audience
    && a.subjectTokenType == b.subjectTokenType && a.requestedTokenType == b.requestedTokenType
  }

  predicate SameKeyed(a: Identity, b: Identity) {
    SameFields(a, b) && ScopeField(a) == ScopeField(b)
  }

  /** The same caller asking for the same thing, up to the order of scopes. */
  predicate SameRequest(a: Identity, b: Identity) {
    SameFields(a, b) && multiset(a.scope) == multiset(b.scope)
  }

  lemma SortedWords(scope: seq<string>)
    requires forall w <- scope :: Word(w)
    ensures forall w <- Sort(scope) :: Word(w)
  {
    SortIsSorted(scope);
    forall w <- Sort(scope) ensures Word(w) {
      assert w in multiset(Sort(scope));
      assert w in multiset(scope);
    }
  }

  /** Among requests with bar-free fields the key can be read back, whatever their scopes are. */
  lemma FieldsReadBack(a: Identity, b: Identity)
    requires BarFreeFields(a) && BarFreeFields(b)
    ensures CacheKey(a) == CacheKey(b) <==> SameKeyed(a, b)
  {
    if CacheKey(a) == CacheKey(b) {
      var a3, b3 := ScopeField(a), ScopeField(b);
      var a2, b2 := a.requestedTokenType + "|" + a3, b.requestedTokenType + "|" + b3;
      var a1, b1 := a.subjectTokenType + "|" + a2, b.subjectTokenType + "|" + b2;
      FirstBar(a.subject, b.subject, a.audience + "|" + a1, b.audience + "|" + b1);
      FirstBar(a.audience, b.audience, a1, b1);
      FirstBar(a.subjectTokenType, b.subjectTokenType, a2, b2);
      FirstBar(a.requestedTokenType, b.requestedTokenType, a3, b3);
    }
  }

  /** Keys coincide exactly for requests that agree on every keyed field and permute each other's scopes. */
  lemma KeysEqualExactly(a: Identity, b: Identity)
    requires Clean(a) && Clean(b)
    ensures CacheKey(a) == CacheKey(b) <==> SameRequest(a, b)
  {
    FieldsReadBack(a, b);
    SortIsSorted(a.scope);
    SortIsSorted(b.scope);
    if SameRequest(a, b) {
      SortedIsUnique(Sort(a.scope), Sort(b.scope));
    }
    if SameKeyed(a, b) {
      SortedWords(a.scope);
      SortedWords(b.scope);
      SplitInvertsJoin(Sort(a.scope));
      SplitInvertsJoin(Sort(b.scope));
    }
  }

  // ---- What agreeing keys mean to the server ----

  /** The scope parameter of the form asks for these words. */
  function Asked(id: Identity): multiset<string> {
    multiset(Split(Join(id.scope, " ")))
  }

  lemma {:induction false} InsertKeepsPieces(x: string, xs: seq<string>)
    ensures multiset(Pieces(Insert(x, xs))) == multiset(Split(x)) + multiset(Pieces(xs))
  {
    if xs == [] || Leq(x, xs[0]) {
      assert ([x] + xs)[1..] == xs;
    } else {
      InsertKeepsPieces(x, xs[1..]);
      assert ([xs[0]] + Insert(x, xs[1..]))[1..] == Insert(x, xs[1..]);
    }
  }

  lemma {:induction false} SortKeepsPieces(xs: seq<string>)
    ensures multiset(Pieces(Sort(xs))) == multiset(Pieces(xs))
  {
    if xs != [] {
      SortKeepsPieces(xs[1..]);
      InsertKeepsPieces(xs[0], Sort(xs[1..]));
    }
  }

  /** Requests with one scope field ask the server for the same scope words, however these were listed. */
  lemma SameFieldAsksAlike(a: Identity, b: Identity)
    requires ScopeField(a) == ScopeField(b)
    ensures Asked(a) == Asked(b)
  {
    SortKeepsPieces(a.scope);
    SortKeepsPieces(b.scope);
    SplitOfJoin(a.scope);
    SplitOfJoin(b.scope);
    SplitOfJoin(Sort(a.scope));
    SplitOfJoin(Sort(b.scope));
  }

  // ---- When a caller's key is its own ----

  /** Every request with this key, whatever its fields and scopes are, agrees on all that is keyed. */
  ghost predicate Unshared(id: Identity) {
    forall other: Identity :: CacheKey(other) == CacheKey(id) ==> SameKeyed(other, id)
  }

  ghost predicate BarFreeScopes(id: Identity) {
    forall w <- id.scope :: BarFree(w)
  }

  lemma {:induction false} JoinedBars(parts: seq<string>)
    ensures BarFree(Join(parts, " ")) <==> forall w <- parts :: BarFree(w)
    decreases |parts|
  {
    if parts != [] {
      var head, tail := parts[0], Join(parts[1..], " ");
      JoinedBars(parts[1..]);
      assert Join(parts, " ") == if |parts| == 1 then head else head + " " + tail;
      assert BarFree(head + " " + tail) <==> BarFree(head) && BarFree(tail);
      assert head in parts && forall w <- parts :: w == head || w in parts[1..];
      assert forall w <- parts[1..] :: w in parts;
    }
  }

  lemma ScopeFieldBars(id: Identity)
    ensures BarFree(ScopeField(id)) <==> BarFreeScopes(id)
  {
    JoinedBars(Sort(id.scope));
    SortIsSorted(id.scope);
    forall w ensures w in Sort(id.scope) <==> w in id.scope {
      assert w in multiset(Sort(id.scope)) <==> w in multiset(id.scope);
    }
  }

  /** Every request with a bar in one of its four fields shares its key with a different one. */
  lemma BarsCollide(id: Identity) returns (other: Identity)
    requires !BarFreeFields(id)
    ensures other.scope == id.scope && CacheKey(other) == CacheKey(id) && !SameFields(other, id)
  {
    var scopes := ScopeField(id);
    var afterStt := id.requestedTokenType + "|" + scopes;
    var afterAud := id.subjectTokenType + "|" + afterStt;
    if !BarFree(id.subject) {
      var p, q := FirstBarSplit(id.subject);
      other := id.(subject := p, audience := q + "|" + id.audience);
      assert CacheKey(id) == (p + "|" + q) + "|" + (id.audience + "|" + afterAud);
      assert CacheKey(other) == p + "|" + ((q + "|" + id.audience) + "|" + afterAud);
      assert |other.subject| < |id.subject|;
    } else if !BarFree(id.audience) {
      var p, q := FirstBarSplit(id.audience);
      other := id.(subject := id.subject + "|" + p, audience := q);
      assert CacheKey(id) == id.subject + "|" + ((p + "|" + q) + "|" + afterAud);
      assert CacheKey(other) == (id.subject + "|" + p) + "|" + (q + "|" + afterAud);
      assert |other.subject| > |id.subject|;
    } else if !BarFree(id.subjectTokenType) {
      var p, q := FirstBarSplit(id.subjectTokenType);
      other := id.(audience := id.audience + "|" + p, subjectTokenType := q);
      assert id.audience + "|" + ((p + "|" + q) + "|" + afterStt) ==
             (id.audience + "|" + p) + "|" + (q + "|" + afterStt);
      assert |other.audience| > |id.audience|;
    } else {
      var p, q := FirstBarSplit(id.requestedTokenType);
      other := id.(subjectTokenType := id.subjectTokenType + "|" + p, requestedTokenType := q);
      assert id.subjectTokenType + "|" + ((p + "|" + q) + "|" + scopes) ==
             (id.subjectTokenType + "|" + p) + "|" + (q + "|" + scopes);
      assert |other.subjectTokenType| > |id.subjectTokenType|;
    }
  }

  /**
   ... and so does every request with a bar in a scope, however clean its fields
   are: another one may send what follows the bar as a single scope.
   */
  lemma ScopeBarsCollide(id: Identity) returns (other: Identity)
    requires BarFreeFields(id) && !BarFreeScopes(id)
    ensures CacheKey(other) == CacheKey(id) && other.subject == id.subject + "|" + id.audience != id.subject
  {
    ScopeFieldBars(id);
    var u, v := FirstBarSplit(ScopeField(id));
    other := Identity(id.subject + "|" + id.audience, id.subjectTokenType, id.requestedTokenType, u, [v]);
    assert Sort([v]) == [v];
    var rest := id.subjectTokenType + "|" + (id.requestedTokenType + "|" + (u + "|" + v));
    assert CacheKey(id) == id.subject + "|" + (id.audience + "|" + rest);
    assert CacheKey(other) == (id.subject + "|" + id.audience) + "|" + rest;
    assert |other.subject| > |id.subject|;
  }

  /** A pair: the first is bar-free but for one scope, and the text after that bar is no sorted list of words. */
  lemma ScopeBarExample()
    ensures CacheKey(Identity("s", "a", "", "", ["a|z", "b"])) == CacheKey(Identity("s|a", "", "", "a", ["z b"]))
  {
    assert Leq("a|z", "b");
    assert Sort(["b"]) == ["b"] && Sort(["z b"]) == ["z b"];
    assert Sort(["a|z", "b"]) == ["a|z", "b"];
    assert Join(["a|z", "b"], " ") == "a|z" + " " + "b" == "a|z b";
    assert "s" + "|" + ("a" + "|" + ("" + "|" + ("" + "|" + "a|z b"))) == "s|a|||a|z b";
    assert "s|a" + "|" + ("" + "|" + ("" + "|" + ("a" + "|" + "z b"))) == "s|a|||a|z b";
  }

  function Bars(s: string): nat {
    if s == "" then 0 else (if s[0] == '|' then 1 else 0) + Bars(s[1..])
  }

  lemma {:induction false} BarsAdd(s: string, t: string)
    ensures Bars(s + t) == Bars(s) + Bars(t)
  {
    if s == "" {
      assert s + t == t;
    } else {
      assert (s + t)[1..] == s[1..] + t;
      BarsAdd(s[1..], t);
    }
  }

  lemma {:induction false} BarFreeMeansNone(s: string)
    ensures BarFree(s) <==> Bars(s) == 0
  {
    if s != "" {
      BarFreeMeansNone(s[1..]);
      assert s == [s[0]] + s[1..];
    }
  }

  /** The four fields with the bars between them. */
  function Prefix(id: Identity): string {
    id.subject + "|" + id.audience + "|" + id.subjectTokenType + "|" + id.requestedTokenType
  }

  lemma KeyIsPrefixAndScopes(id: Identity)
    ensures CacheKey(id) == Prefix(id) + "|" + ScopeField(id)
  {
    var scopes := ScopeField(id);
    var types := id.subjectTokenType + "|" + (id.requestedTokenType + "|" + scopes);
    assert id.subject + "|" + (id.audience + "|" + types) ==
           id.subject + "|" + id.audience + "|" + id.subjectTokenType + "|" + id.requestedTokenType + "|" + scopes;
  }

  lemma PrefixBars(id: Identity)
    ensures Bars(Prefix(id)) >= 3
    ensures BarFreeFields(id) <==> Bars(Prefix(id)) == 3
  {
    var s, a, t, r := id.subject, id.audience, id.subjectTokenType, id.requestedTokenType;
    BarsAdd(s, "|");
    BarsAdd(s + "|", a);
    BarsAdd(s + "|" + a, "|");
    BarsAdd(s + "|" + a + "|", t);
    BarsAdd(s + "|" + a + "|" + t, "|");
    BarsAdd(s + "|" + a + "|" + t + "|", r);
    BarFreeMeansNone(s);
    BarFreeMeansNone(a);
    BarFreeMeansNone(t);
    BarFreeMeansNone(r);
  }

  /** A request with bars in its fields shares a bar-free one's key only by cutting its scopes at a bar. */
  lemma ForeignPrefixCutsScopes(id: Identity, other: Identity)
    requires BarFreeFields(id) && !BarFreeFields(other) && CacheKey(id) == CacheKey(other)
    ensures !BarFreeScopes(id)
  {
    KeyIsPrefixAndScopes(id);
    KeyIsPrefixAndScopes(other);
    PrefixBars(id);
    PrefixBars(other);
    var p, q := Prefix(id), Prefix(other);
    var key := CacheKey(id);
    assert key[..|p|] == p && key[..|q|] == q;
    if |q| <= |p| {
      assert p == q + p[|q|..];
      BarsAdd(q, p[|q|..]);
    } else {
      var u := q[|p| + 1..];
      assert key[|p| + 1..] == ScopeField(id);
      assert key[|p| + 1..] == u + "|" + ScopeField(other);
      ScopeFieldBars(id);
    }
  }

  /**
   A caller's own check: whatever others send, its key stands for its own request
   alone exactly when it has no bar in a field or in a scope.
   */
  lemma UnsharedExactly(id: Identity)
    ensures Unshared(id) <==> BarFreeFields(id) && BarFreeScopes(id)
  {
    if !BarFreeFields(id) {
      var other := BarsCollide(id);
    } else if !BarFreeScopes(id) {
      var other := ScopeBarsCollide(id);
    } else {
      forall other: Identity | CacheKey(other) == CacheKey(id) ensures SameKeyed(other, id) {
        if BarFreeFields(other) {
          FieldsReadBack(other, id);
        } else {
          ForeignPrefixCutsScopes(id, other);
          assert false;
        }
      }
    }
  }

  // ---- Only requests with a subject are cached ----

  function WithFront(c: char, id: Identity): Identity {
    id.(subject := [c] + id.subject)
  }

  lemma FrontOfKey(c: char, id: Identity)
    ensures CacheKey(WithFront(c, id)) == [c] + CacheKey(id)
  {
    var rest := id.audience + "|" + (id.subjectTokenType + "|" + (id.requestedTokenType + "|" + ScopeField(id)));
    assert ([c] + id.subject) + "|" + rest == [c] + (id.subject + "|" + rest);
  }

  /** No bar in a field or a scope, but for the first character of the subject. */
  ghost predicate OwnKey(id: Identity)
    requires id.subject != ""
  {
    BarFreeFields(id.(subject := id.subject[1..])) && BarFreeScopes(id)
  }

  /** A request that fails the check shares its key with one for another subject, audience or token type. */
  lemma CachedKeysCollide(id: Identity) returns (other: Identity)
    requires id.subject != "" && !OwnKey(id)
    ensures other.subject != "" && CacheKey(other) == CacheKey(id) && !SameFields(other, id)
  {
    var c, tail := id.subject[0], id.(subject := id.subject[1..]);
    if !BarFreeFields(tail) {
      other := BarsCollide(tail);
    } else {
      other := ScopeBarsCollide(tail);
    }
    FrontOfKey(c, tail);
    FrontOfKey(c, other);
    assert id == WithFront(c, tail) by {
      assert [c] + tail.subject == id.subject;
    }
    assert WithFront(c, other).subject[1..] == other.subject && id.subject[1..] == tail.subject;
    other := WithFront(c, other);
  }

  /**
   A caller's own check, among the requests that are cached: whatever fields and
   scopes they have, those with its key agree with it exactly when it passes.
   */
  lemma CachedUnsharedExactly(id: Identity)
    requires id.subject != ""
    ensures OwnKey(id) <==>
            forall other: Identity | other.subject != "" && CacheKey(other) == CacheKey(id) :: SameKeyed(other, id)
  {
    if OwnKey(id) {
      var tail := id.(subject := id.subject[1..]);
      UnsharedExactly(tail);
      forall other: Identity | other.subject != "" && CacheKey(other) == CacheKey(id) ensures SameKeyed(other, id) {
        var rest := other.(subject := other.subject[1..]);
        FrontOfKey(id.subject[0], tail);
        FrontOfKey(other.subject[0], rest);
        assert [id.subject[0]] + tail.subject == id.subject && [other.subject[0]] + rest.subject == other.subject;
        assert id == WithFront(id.subject[0], tail) && other == WithFront(other.subject[0], rest);
        assert CacheKey(id)[0] == CacheKey(other)[0];
        assert CacheKey(id)[1..] == CacheKey(tail) && CacheKey(other)[1..] == CacheKey(rest);
        assert SameKeyed(rest, tail);
      }
    } else {
      var other := CachedKeysCollide(id);
    }
  }
}
