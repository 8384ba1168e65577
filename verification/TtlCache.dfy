/**
 A result cache as both token caches use it: locked lookups that drop what they
 find stale, and locked stores.  Calls do not hold the lock in between, so a
 concurrent execution is an arbitrary trace of lookups and stores.
 */
module TtlCache {
  import opened Base

  /** `expiry` reads a value's expiry; a value without one is never usable. */
  predicate Usable(expires: Option<int>, now: int, leeway: int) {
    expires.Some? && now < expires.value - leeway
  }

  predicate Hit<V>(expiry: V -> Option<int>, items: map<string, V>, key: string, now: int, leeway: int) {
    key in items && Usable(expiry(items[key]), now, leeway)
  }

  function Looked<V>(
    expiry: V -> Option<int>, items: map<string, V>, key: string, now: int, leeway: int): map<string, V>
  {
    if Hit(expiry, items, key, now, leeway) then items else items - {key}
  }

  /** `Idle` is a step of some call that does not touch the cache. */
  datatype Event<+V> = Lookup(key: string, now: int) | Store(key: string, value: V) | Idle

  function Step<V>(expiry: V -> Option<int>, items: map<string, V>, e: Event<V>, leeway: int): map<string, V> {
    match e
    case Lookup(key, now) => Looked(expiry, items, key, now, leeway)
    case Store(key, value) => items[key := value]
    case Idle => items
  }

  function After<V>(expiry: V -> Option<int>, trace: seq<Event<V>>, leeway: int): map<string, V> {
    if trace == [] then map[] else Step(expiry, After(expiry, Init(trace), leeway), Last(trace), leeway)
  }

  lemma AfterStep<V>(expiry: V -> Option<int>, trace: seq<Event<V>>, n: nat, leeway: int)
    requires n < |trace|
    ensures After(expiry, trace[..n + 1], leeway) == Step(expiry, After(expiry, trace[..n], leeway), trace[n], leeway)
  {
    assert Init(trace[..n + 1]) == trace[..n];
  }

  predicate Stores<V>(trace: seq<Event<V>>, j: nat, key: string) {
    j < |trace| && trace[j].Store? && trace[j].key == key
  }

  /** Step `j` is the most recent of the first `n` to store under `key`. */
  ghost predicate LatestStore<V>(trace: seq<Event<V>>, n: nat, j: nat, key: string) {
    j < n <= |trace| && Stores(trace, j, key) && forall k: nat :: j < k < n ==> !Stores(trace, k, key)
  }

  /** Every entry is what the latest store under its key put there. */
  lemma {:induction false} EntryIsLatestStore<V>(
    expiry: V -> Option<int>, trace: seq<Event<V>>, n: nat, key: string, leeway: int) returns (j: nat)
    requires n <= |trace| && key in After(expiry, trace[..n], leeway)
    ensures LatestStore(trace, n, j, key) && trace[j].value == After(expiry, trace[..n], leeway)[key]
    decreases n
  {
    AfterStep(expiry, trace, n - 1, leeway);
    if Stores(trace, n - 1, key) {
      j := n - 1;
    } else {
      j := EntryIsLatestStore(expiry, trace, n - 1, key, leeway);
    }
  }

  /** The clock of the lookups never runs backwards, and has not passed `now`. */
  ghost predicate LookupsOrdered<V>(trace: seq<Event<V>>, n: nat, now: int) {
    n <= |trace| && forall i :: 0 <= i < n && trace[i].Lookup? ==> trace[i].now <= now
  }

  /** A latest store that has not lapsed by `now` is still there: no earlier lookup found it stale. */
  lemma {:induction false} LatestStoreIsKept<V>(
    expiry: V -> Option<int>, trace: seq<Event<V>>, n: nat, j: nat, key: string, now: int, leeway: int)
    requires LookupsOrdered(trace, n, now) && LatestStore(trace, n, j, key)
    requires Usable(expiry(trace[j].value), now, leeway)
    ensures key in After(expiry, trace[..n], leeway) && After(expiry, trace[..n], leeway)[key] == trace[j].value
    decreases n
  {
    AfterStep(expiry, trace, n - 1, leeway);
    if j < n - 1 {
      LatestStoreIsKept(expiry, trace, n - 1, j, key, now, leeway);
      assert !Stores(trace, n - 1, key);
    }
  }

  /** A lookup hits exactly when the latest store under its key has not lapsed. */
  lemma HitIsLatestStore<V>(expiry: V -> Option<int>, trace: seq<Event<V>>, n: nat, key: string, now: int, leeway: int)
    requires LookupsOrdered(trace, n, now)
    ensures Hit(expiry, After(expiry, trace[..n], leeway), key, now, leeway) <==>
            exists j: nat :: LatestStore(trace, n, j, key) && Usable(expiry(trace[j].value), now, leeway)
  {
    if Hit(expiry, After(expiry, trace[..n], leeway), key, now, leeway) {
      var j := EntryIsLatestStore(expiry, trace, n, key, leeway);
    }
    forall j: nat | LatestStore(trace, n, j, key) && Usable(expiry(trace[j].value), now, leeway)
      ensures Hit(expiry, After(expiry, trace[..n], leeway), key, now, leeway)
    {
      LatestStoreIsKept(expiry, trace, n, j, key, now, leeway);
    }
  }
}
