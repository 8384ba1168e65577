/**
 The replay cache shared by any number of replicas: `SeenBefore` over an atomic
 set-if-absent with expiry.  Redis executes one command at a time, so every
 interleaving of replicas is one sequence of attempts in the store's order; each
 attempt brings its own replica's mode, key prefix and clock reading, and the
 store may report an error before or after carrying it out.
 */
module RedisReplay {
  import opened Base

  datatype FailMode = Unset | FailOpen | FailClosed

  datatype Fault = NoFault | RequestLost | ReplyLost

  const DEFAULT_PREFIX := "dpop:replay:"

  /** Key to expiry, on the store's own clock. */
  type Entries = map<string, int>

  datatype Attempt = Attempt(mode: FailMode, key: string, exp: int, now: int, storeNow: int, fault: Fault)
  {
    function Ttl(): int { exp - now }

    /** The store's expiry has whole milliseconds: the rest of the time to live is cut off. */
    function Kept(): int { Ttl() - Ttl() % MILLISECOND }

    /** At least one millisecond is left, so the store is asked. */
    predicate Counts() { Ttl() >= MILLISECOND }

    predicate Executed() { Counts() && fault != RequestLost }

    predicate OpenError() { Counts() && fault != NoFault && mode != FailClosed }
  }

  predicate Present(entries: Entries, key: string, storeNow: int) {
    key in entries && storeNow < entries[key]
  }

  function Step(entries: Entries, a: Attempt): Entries {
    if a.Executed() && !Present(entries, a.key, a.storeNow) then entries[a.key := a.storeNow + a.Kept()] else entries
  }

  /** What `SeenBefore` returns: true for a replay. */
  predicate Replayed(entries: Entries, a: Attempt) {
    a.Counts() &&
    if a.fault != NoFault then a.mode == FailClosed else Present(entries, a.key, a.storeNow)
  }

  function After(run: seq<Attempt>): Entries {
    if run == [] then map[] else Step(After(Init(run)), Last(run))
  }

  /** Attempt `i` put its key into the store. */
  predicate Stored(run: seq<Attempt>, i: nat)
    requires i < |run|
  {
    run[i].Executed() && !Present(After(run[..i]), run[i].key, run[i].storeNow)
  }

  lemma AfterStep(run: seq<Attempt>, n: nat)
    requires n < |run|
    ensures After(run[..n + 1]) == Step(After(run[..n]), run[n])
  {
    assert Init(run[..n + 1]) == run[..n];
  }

  /** How many of the attempts on `key` with time left were answered "first sight". */
  function FirstSights(run: seq<Attempt>, key: string): nat {
    if run == [] then 0
    else
      var a := Last(run);
      FirstSights(Init(run), key) +
      if a.key == key && a.Counts() && !Replayed(After(Init(run)), a) then 1 else 0
  }

  /** How many attempts on `key` met a store error at a replica that fails open. */
  function OpenErrors(run: seq<Attempt>, key: string): nat {
    if run == [] then 0
    else OpenErrors(Init(run), key) + if Last(run).key == key && Last(run).OpenError() then 1 else 0
  }

  /** Every attempt on `key` reaches the store before an entry stored for it earlier lapses. */
  ghost predicate OneLifetime(run: seq<Attempt>, key: string) {
    forall i: nat, j: nat :: i < j < |run| && run[i].key == key == run[j].key && run[j].Counts() && Stored(run, i) ==>
      run[j].storeNow < run[i].storeNow + run[i].Kept()
  }

  /** Within one lifetime a stored entry stays exactly as it was stored. */
  lemma {:induction false} EntryPersists(run: seq<Attempt>, key: string, i: nat, n: nat)
    requires i < n <= |run| && OneLifetime(run, key) && run[i].key == key && Stored(run, i)
    ensures key in After(run[..n]) && After(run[..n])[key] == run[i].storeNow + run[i].Kept()
    decreases n
  {
    AfterStep(run, n - 1);
    if n - 1 > i {
      EntryPersists(run, key, i, n - 1);
    }
  }

  ghost predicate EverStored(run: seq<Attempt>, key: string, n: nat)
    requires n <= |run|
  {
    exists i: nat :: i < n && run[i].key == key && Stored(run, i)
  }

  lemma {:induction false} FirstSightsAreAccountedFor(run: seq<Attempt>, key: string, n: nat)
    requires n <= |run| && OneLifetime(run, key)
    ensures FirstSights(run[..n], key) <= OpenErrors(run[..n], key) + if EverStored(run, key, n) then 1 else 0
    decreases n
  {
    if n > 0 {
      var a := run[n - 1];
      assert Init(run[..n]) == run[..n - 1] && Last(run[..n]) == a;
      FirstSightsAreAccountedFor(run, key, n - 1);
      assert EverStored(run, key, n - 1) ==> EverStored(run, key, n);
      if a.key == key && a.Executed() {
        if EverStored(run, key, n - 1) {
          var i: nat :| i < n - 1 && run[i].key == key && Stored(run, i);
          EntryPersists(run, key, i, n - 1);
        } else {
          assert Stored(run, n - 1) ==> EverStored(run, key, n);
        }
      }
    }
  }

  /**
   During one lifetime of a key, over all replicas and interleavings, the first
   sights number at most one plus the store errors that failed open.
   */
  lemma SingleUseAcrossReplicas(run: seq<Attempt>, key: string)
    requires OneLifetime(run, key)
    ensures FirstSights(run, key) <= 1 + OpenErrors(run, key)
    ensures (forall a <- run :: a.key == key ==> a.mode == FailClosed) ==> FirstSights(run, key) <= 1
  {
    assert run[..|run|] == run;
    FirstSightsAreAccountedFor(run, key, |run|);
    if forall a <- run :: a.key == key ==> a.mode == FailClosed {
      FailClosedHasNoOpenErrors(run, key);
    }
  }

  lemma {:induction false} FailClosedHasNoOpenErrors(run: seq<Attempt>, key: string)
    requires forall a <- run :: a.key == key ==> a.mode == FailClosed
    ensures OpenErrors(run, key) == 0
  {
    if run != [] {
      assert Last(run) in run && forall a <- Init(run) :: a in run;
      FailClosedHasNoOpenErrors(Init(run), key);
    }
  }

  /**
   One proof keeps to one lifetime: attempts that share an expiry, whose replica
   clocks are not ahead of the store's, and that reach the store at least a
   millisecond before it.
   */
  lemma OneProofHasOneLifetime(run: seq<Attempt>, key: string, exp: int)
    requires forall a <- run :: a.key == key && a.Counts() ==> a.exp == exp && a.now <= a.storeNow <= exp - MILLISECOND
    ensures OneLifetime(run, key)
  {
  }

  /**
   Without error, and on a store clock that never runs backwards, an attempt is
   called a replay exactly when an earlier attempt's entry has not lapsed.
   */
  lemma {:induction false} SeenBeforeIsHistory(run: seq<Attempt>, n: nat, key: string, storeNow: int)
    requires n <= |run|
    requires forall i, j :: 0 <= i < j < |run| ==> run[i].storeNow <= run[j].storeNow
    requires forall i :: 0 <= i < n ==> run[i].storeNow <= storeNow
    ensures Present(After(run[..n]), key, storeNow) <==>
            exists i: nat :: i < n && run[i].key == key && Stored(run, i) && storeNow < run[i].storeNow + run[i].Kept()
    decreases n
  {
    if n > 0 {
      AfterStep(run, n - 1);
      SeenBeforeIsHistory(run, n - 1, key, storeNow);
      var a := run[n - 1];
      if a.key == key && Stored(run, n - 1) {
        assert !Present(After(run[..n - 1]), key, storeNow);
      }
    }
  }

  // ---- The shared store and one replica's client of it ----

  class Store {
    var entries: Entries

    constructor ()
      ensures entries == After([])
    {
      entries := map[];
    }

    /** SET key NX PX ttl, atomically; `err` reports a fault whether or not the command ran. */
    method SetNX(key: string, ttl: int, storeNow: int, fault: Fault) returns (stored: bool, err: bool)
      modifies this
      ensures err <==> fault != NoFault
      ensures !err ==> (stored <==> !Present(old(entries), key, storeNow))
      ensures entries == if fault != RequestLost && !Present(old(entries), key, storeNow)
                         then old(entries)[key := storeNow + (ttl - ttl % MILLISECOND)] else old(entries)
    {
      stored, err := false, fault != NoFault;
      if fault != RequestLost && !(key in entries && storeNow < entries[key]) {
        entries, stored := entries[key := storeNow + (ttl - ttl % MILLISECOND)], true;
      }
    }
  }

  class ReplayCache {
    const store: Store
    const mode: FailMode
    const prefix: string
    const digest: string -> string   // base64url of SHA-256

    constructor (store: Store, mode: FailMode, prefix: string, digest: string -> string)
      ensures this.store == store && this.mode == mode && this.digest == digest
      ensures this.prefix == if prefix == "" then DEFAULT_PREFIX else prefix
    {
      this.store, this.mode, this.digest := store, mode, digest;
      this.prefix := if prefix == "" then DEFAULT_PREFIX else prefix;
    }

    /** Null for a missing client or an unset mode. */
    static method New(client: Store?, mode: FailMode, prefix: string, digest: string -> string)
      returns (cache: ReplayCache?)
      ensures cache == null <==> client == null || mode == Unset
      ensures cache != null ==>
                && cache.store == client && cache.mode == mode && cache.digest == digest
                && cache.prefix == if prefix == "" then "dpop:replay:" else prefix
    {
      if client == null || mode == Unset {
        return null;
      }
      cache := new ReplayCache(client, mode, prefix, digest);
    }

    function AttemptOf(jti: string, htu: string, exp: int, now: int, storeNow: int, fault: Fault): Attempt {
      Attempt(mode, prefix + digest(jti + "|" + htu), exp, now, storeNow, fault)
    }

    method SeenBefore(jti: string, htu: string, exp: int, now: int, storeNow: int, fault: Fault) returns (replay: bool)
      modifies store
      ensures replay == Replayed(old(store.entries), AttemptOf(jti, htu, exp, now, storeNow, fault))
      ensures store.entries == Step(old(store.entries), AttemptOf(jti, htu, exp, now, storeNow, fault))
    {
      var ttl := exp - now;
      if ttl < MILLISECOND {
        return false;
      }
      var key := prefix + digest(jti + "|" + htu);
      var stored, err := store.SetNX(key, ttl, storeNow, fault);
      if err {
        return mode == FailClosed;
      }
      return !stored;
    }
  }
}
