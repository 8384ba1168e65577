/**
 The verifier over the shared store: any number of replicas, each with its own
 verifier and clock, in front of one Redis.  A run lists their presentations in
 the order in which the store meets them.
 */
module Cluster {
  import opened Base
  import opened Dpop
  import Nonce
  import Redis = RedisReplay

  datatype Event = Event(
    v: Verifier, presentation: Presentation, mode: Redis.FailMode, storeNow: int, fault: Redis.Fault)

  predicate Reaches(lib: Library, e: Event) {
    Screen(lib, e.v, e.presentation.input, e.presentation.verifierNow).ToCache?
  }

  /**
   What a presentation asks of the replay cache; `keyOf` is the replicas' common
   prefix and digest of a joined key.  One that is turned away earlier has no
   time left, so it asks the store nothing.
   */
  function AttemptOf(lib: Library, keyOf: string -> string, e: Event): Redis.Attempt {
    match Screen(lib, e.v, e.presentation.input, e.presentation.verifierNow)
    case Answered(_) => Redis.Attempt(e.mode, "", 0, 0, e.storeNow, e.fault)
    case ToCache(c) =>
      Redis.Attempt(e.mode, keyOf(CacheKey(lib, c)), Expiry(e.v, c), e.presentation.cacheNow, e.storeNow, e.fault)
  }

  function Attempts(lib: Library, keyOf: string -> string, run: seq<Event>): (attempts: seq<Redis.Attempt>)
    ensures |attempts| == |run|
  {
    seq(|run|, i requires 0 <= i < |run| => AttemptOf(lib, keyOf, run[i]))
  }

  /** Presentation `i` carries a proof that its replica accepts. */
  predicate Accepted(lib: Library, keyOf: string -> string, run: seq<Event>, i: nat)
    requires i < |run|
  {
    Reaches(lib, run[i]) && !Redis.Replayed(Redis.After(Attempts(lib, keyOf, run)[..i]), Attempts(lib, keyOf, run)[i])
  }

  ghost predicate Presents(run: seq<Event>, i: nat, proof: string) {
    i < |run| && run[i].presentation.input.proofs == [proof]
  }

  ghost function AcceptancesOf(lib: Library, keyOf: string -> string, run: seq<Event>, proof: string): set<nat> {
    set i: nat | i < |run| && Presents(run, i, proof) && Accepted(lib, keyOf, run, i)
  }

  /** Accepted because the store failed and the replica fails open. */
  ghost function OpenErrorsOf(lib: Library, keyOf: string -> string, run: seq<Event>, proof: string): set<nat> {
    set i: nat | i < |run| && Presents(run, i, proof) && Reaches(lib, run[i]) &&
                 AttemptOf(lib, keyOf, run[i]).OpenError()
  }

  /** Accepted with under a millisecond left, without asking the store. */
  ghost function LastMomentsOf(lib: Library, keyOf: string -> string, run: seq<Event>, proof: string): set<nat> {
    set i: nat | i < |run| && Presents(run, i, proof) && Reaches(lib, run[i]) && !AttemptOf(lib, keyOf, run[i]).Counts()
  }

  ghost predicate StoreClockOrdered(run: seq<Event>) {
    forall i, j :: 0 <= i < j < |run| ==> run[i].storeNow <= run[j].storeNow
  }

  /** Presentation `i` is of the proof, and has time enough left to ask the store. */
  ghost predicate Asks(lib: Library, keyOf: string -> string, run: seq<Event>, proof: string, i: nat) {
    Presents(run, i, proof) && Reaches(lib, run[i]) && AttemptOf(lib, keyOf, run[i]).Counts()
  }

  /** One proof has one key, whichever replica it meets. */
  lemma ProofHasOneKey(lib: Library, keyOf: string -> string, run: seq<Event>, proof: string, i: nat, j: nat)
    requires Presents(run, i, proof) && Presents(run, j, proof) && Reaches(lib, run[i]) && Reaches(lib, run[j])
    ensures AttemptOf(lib, keyOf, run[i]).key == AttemptOf(lib, keyOf, run[j]).key
  {
  }

  /** The store answered, and called it a first sight. */
  predicate CleanSight(lib: Library, keyOf: string -> string, run: seq<Event>, i: nat)
    requires i < |run|
  {
    Accepted(lib, keyOf, run, i) && AttemptOf(lib, keyOf, run[i]).Counts() && run[i].fault == Redis.NoFault
  }

  lemma OtherwiseClean(lib: Library, keyOf: string -> string, run: seq<Event>, i: nat)
    requires i < |run| && Accepted(lib, keyOf, run, i)
    requires AttemptOf(lib, keyOf, run[i]).Counts() && !AttemptOf(lib, keyOf, run[i]).OpenError()
    ensures CleanSight(lib, keyOf, run, i)
  {
  }

  /** A presentation that the store answers is accepted exactly when everything stored under its key has lapsed. */
  lemma AnsweredExactly(lib: Library, keyOf: string -> string, run: seq<Event>, i: nat)
    requires StoreClockOrdered(run) && i < |run| && Reaches(lib, run[i])
    requires AttemptOf(lib, keyOf, run[i]).Counts() && run[i].fault == Redis.NoFault
    ensures var attempts := Attempts(lib, keyOf, run);
            Accepted(lib, keyOf, run, i) <==>
            forall j: nat | j < i && Redis.Stored(attempts, j) && attempts[j].key == attempts[i].key ::
              attempts[j].storeNow + attempts[j].Kept() <= run[i].storeNow
  {
    var attempts := Attempts(lib, keyOf, run);
    Redis.SeenBeforeIsHistory(attempts, i, attempts[i].key, run[i].storeNow);
  }

  /** Presentation `j`, with claims `d`, put its entry into the store. */
  ghost predicate StoredWith(lib: Library, keyOf: string -> string, run: seq<Event>, j: nat, d: Claims)
    requires j < |run|
  {
    Redis.Stored(Attempts(lib, keyOf, run), j) &&
    Screen(lib, run[j].v, run[j].presentation.input, run[j].presentation.verifierNow) == ToCache(d)
  }

  /** What the replica computes as the proof's time to live. */
  function TimeLeft(e: Event, c: Claims): int {
    c.iat * SECOND + e.v.leeway - e.presentation.cacheNow
  }

  lemma AttemptFromClaims(lib: Library, keyOf: string -> string, e: Event, c: Claims)
    requires Screen(lib, e.v, e.presentation.input, e.presentation.verifierNow) == ToCache(c)
    ensures var a := AttemptOf(lib, keyOf, e);
            && a.key == keyOf(c.jti + "|" + StripURL(lib, c.htu)) && a.storeNow == e.storeNow
            && a.Kept() == TimeLeft(e, c) / MILLISECOND * MILLISECOND
            && (a.Counts() <==> TimeLeft(e, c) >= MILLISECOND) && a.mode == e.mode && a.fault == e.fault
  {
  }

  lemma StoredHasClaims(lib: Library, keyOf: string -> string, run: seq<Event>, j: nat) returns (d: Claims)
    requires j < |run| && Redis.Stored(Attempts(lib, keyOf, run), j)
    ensures StoredWith(lib, keyOf, run, j, d)
  {
    d := Screen(lib, run[j].v, run[j].presentation.input, run[j].presentation.verifierNow).claims;
  }

  /** Everything stored for the same jti|htu has lapsed, each after the whole milliseconds of its time to live. */
  ghost predicate AllLapsed(lib: Library, keyOf: string -> string, run: seq<Event>, i: nat, c: Claims)
    requires i < |run|
  {
    forall j: nat, d | j < i && StoredWith(lib, keyOf, run, j, d) &&
      keyOf(d.jti + "|" + StripURL(lib, d.htu)) == keyOf(c.jti + "|" + StripURL(lib, c.htu)) ::
      run[j].storeNow + TimeLeft(run[j], d) / MILLISECOND * MILLISECOND <= run[i].storeNow
  }

  /**
   Any screened presentation, from its claims: with under a millisecond left it
   is accepted; on a store error the replica's mode decides; otherwise it is
   accepted exactly when everything stored for it has lapsed.
   */
  lemma AcceptedExactly(lib: Library, keyOf: string -> string, run: seq<Event>, i: nat, c: Claims)
    requires StoreClockOrdered(run) && i < |run|
    requires Screen(lib, run[i].v, run[i].presentation.input, run[i].presentation.verifierNow) == ToCache(c)
    ensures Accepted(lib, keyOf, run, i) <==>
            if TimeLeft(run[i], c) < MILLISECOND then true
            else if run[i].fault != Redis.NoFault then run[i].mode != Redis.FailClosed
            else AllLapsed(lib, keyOf, run, i, c)
  {
    AttemptFromClaims(lib, keyOf, run[i], c);
    if TimeLeft(run[i], c) >= MILLISECOND && run[i].fault == Redis.NoFault {
      AnsweredExactly(lib, keyOf, run, i);
      LapsedInClaims(lib, keyOf, run, i, c);
    }
  }

  lemma LapsedInClaims(lib: Library, keyOf: string -> string, run: seq<Event>, i: nat, c: Claims)
    requires i < |run|
    requires Screen(lib, run[i].v, run[i].presentation.input, run[i].presentation.verifierNow) == ToCache(c)
    ensures var attempts := Attempts(lib, keyOf, run);
            AllLapsed(lib, keyOf, run, i, c) <==>
            forall j: nat | j < i && Redis.Stored(attempts, j) && attempts[j].key == attempts[i].key ::
              attempts[j].storeNow + attempts[j].Kept() <= run[i].storeNow
  {
    var attempts := Attempts(lib, keyOf, run);
    AttemptFromClaims(lib, keyOf, run[i], c);
    forall j: nat, d | j < i && StoredWith(lib, keyOf, run, j, d)
      ensures attempts[j].key == keyOf(d.jti + "|" + StripURL(lib, d.htu))
      ensures attempts[j].storeNow + attempts[j].Kept() ==
              run[j].storeNow + TimeLeft(run[j], d) / MILLISECOND * MILLISECOND
    {
      AttemptFromClaims(lib, keyOf, run[j], d);
    }
    forall j: nat | j < i && Redis.Stored(attempts, j) ensures exists d :: StoredWith(lib, keyOf, run, j, d) {
      var d := StoredHasClaims(lib, keyOf, run, j);
    }
  }

  /** When the entry that presentation `i` stores leaves the store: its time to live cut to whole milliseconds. */
  function LapseOf(lib: Library, keyOf: string -> string, run: seq<Event>, i: nat): int
    requires i < |run|
  {
    run[i].storeNow + AttemptOf(lib, keyOf, run[i]).Kept()
  }

  /** Whatever else is stored under its key, the store calls a proof new again only once its entry has lapsed. */
  lemma SecondSightNeedsLapse(lib: Library, keyOf: string -> string, run: seq<Event>, proof: string, i: nat, j: nat)
    requires StoreClockOrdered(run) && i < j < |run| && Presents(run, i, proof) && Presents(run, j, proof)
    requires CleanSight(lib, keyOf, run, i) && CleanSight(lib, keyOf, run, j)
    ensures LapseOf(lib, keyOf, run, i) <= run[j].storeNow
  {
    var attempts := Attempts(lib, keyOf, run);
    ProofHasOneKey(lib, keyOf, run, proof, i, j);
    assert Redis.Stored(attempts, i);
    AnsweredExactly(lib, keyOf, run, j);
  }

  /** Presentations of the proof that ask the store after an entry of an earlier one has lapsed. */
  ghost function LateOf(lib: Library, keyOf: string -> string, run: seq<Event>, proof: string): set<nat> {
    set j: nat | j < |run| && Asks(lib, keyOf, run, proof, j) && Late(lib, keyOf, run, proof, j)
  }

  ghost predicate Late(lib: Library, keyOf: string -> string, run: seq<Event>, proof: string, j: nat)
    requires j < |run|
  {
    exists i: nat ::
      && i < j && Asks(lib, keyOf, run, proof, i) && Redis.Stored(Attempts(lib, keyOf, run), i)
      && LapseOf(lib, keyOf, run, i) <= run[j].storeNow
  }

  /**
   Across replicas and interleavings, with any other traffic on the store (the
   same jti with another iat, key collisions, other leeways), a proof is
   accepted at most once, plus once for each store error on it that failed open,
   each presentation of it in its last millisecond, and each one that reaches
   the store late.
   */
  lemma SingleUseAcrossCluster(lib: Library, keyOf: string -> string, run: seq<Event>, proof: string)
    requires StoreClockOrdered(run)
    ensures |AcceptancesOf(lib, keyOf, run, proof)| <=
            1 + |OpenErrorsOf(lib, keyOf, run, proof)| + |LastMomentsOf(lib, keyOf, run, proof)| +
            |LateOf(lib, keyOf, run, proof)|
  {
    var accepted := AcceptancesOf(lib, keyOf, run, proof);
    var open, moments := OpenErrorsOf(lib, keyOf, run, proof), LastMomentsOf(lib, keyOf, run, proof);
    var late := LateOf(lib, keyOf, run, proof);
    var clean := accepted - open - moments - late;
    forall i <- clean ensures CleanSight(lib, keyOf, run, i) && Asks(lib, keyOf, run, proof, i) {
      OtherwiseClean(lib, keyOf, run, i);
    }
    forall i, j | i in clean && j in clean && i < j ensures false {
      SecondSightNeedsLapse(lib, keyOf, run, proof, i, j);
      assert Redis.Stored(Attempts(lib, keyOf, run), i);
      assert Late(lib, keyOf, run, proof, j);
    }
    if clean != {} {
      var i :| i in clean;
      assert clean == {i};
    }
    SubsetIsNoLarger(accepted, clean + (open + moments + late));
    assert |open + moments + late| <= |open| + |moments| + |late|;
  }

  /** Two of these terms are no slack: each such presentation is accepted, so one proof can be any number of times. */
  lemma OpenErrorsAndLastMomentsAreAccepted(lib: Library, keyOf: string -> string, run: seq<Event>, proof: string)
    ensures OpenErrorsOf(lib, keyOf, run, proof) <= AcceptancesOf(lib, keyOf, run, proof)
    ensures LastMomentsOf(lib, keyOf, run, proof) <= AcceptancesOf(lib, keyOf, run, proof)
  {
  }

  /** Failing closed, never late and not in the last millisecond, a proof is accepted at most once. */
  lemma FailClosedClusterSingleUse(lib: Library, keyOf: string -> string, run: seq<Event>, proof: string)
    requires StoreClockOrdered(run) && LateOf(lib, keyOf, run, proof) == {}
    requires forall i: nat | Presents(run, i, proof) && Reaches(lib, run[i]) ::
               run[i].mode == Redis.FailClosed && AttemptOf(lib, keyOf, run[i]).Counts()
    ensures |AcceptancesOf(lib, keyOf, run, proof)| <= 1
  {
    SingleUseAcrossCluster(lib, keyOf, run, proof);
    assert OpenErrorsOf(lib, keyOf, run, proof) == {} && LastMomentsOf(lib, keyOf, run, proof) == {};
  }

  /**
   None is late if the replicas' clocks are not ahead of the store's and each
   presentation that asks the store reaches it at least a millisecond before the
   expiry that an earlier one's replica gave the proof.
   */
  lemma InTimeIsNotLate(lib: Library, keyOf: string -> string, run: seq<Event>, proof: string)
    requires forall i: nat, j: nat | i < j && Asks(lib, keyOf, run, proof, i) && Asks(lib, keyOf, run, proof, j) ::
               && AttemptOf(lib, keyOf, run[i]).now <= run[i].storeNow
               && run[j].storeNow <= AttemptOf(lib, keyOf, run[i]).exp - MILLISECOND
    ensures LateOf(lib, keyOf, run, proof) == {}
  {
  }

  /** Without other traffic, a proof is accepted again exactly when it reaches the store after its entry lapsed. */
  lemma SecondPresentationExactly(lib: Library, keyOf: string -> string, first: Event, again: Event, proof: string)
    requires var run := [first, again];
             && Asks(lib, keyOf, run, proof, 0) && Asks(lib, keyOf, run, proof, 1) && StoreClockOrdered(run)
             && first.fault == again.fault == Redis.NoFault
    ensures var run := [first, again];
            && Accepted(lib, keyOf, run, 0)
            && (Accepted(lib, keyOf, run, 1) <==> LapseOf(lib, keyOf, run, 0) <= again.storeNow)
  {
    var run := [first, again];
    var attempts := Attempts(lib, keyOf, run);
    ProofHasOneKey(lib, keyOf, run, proof, 0, 1);
    AnsweredExactly(lib, keyOf, run, 0);
    AnsweredExactly(lib, keyOf, run, 1);
    assert Redis.Stored(attempts, 0);
  }

  /**
   A witness with ordinary delays: replicas that fail closed and have the store's
   time, no fault, and a millisecond left on both presentations.  The second one
   takes 0.2 ms to the store, where the entry, kept for 1 of the proof's 1.9 ms,
   has lapsed.
   */
  lemma LateReplayExists() returns (lib: Library, first: Event, again: Event)
    ensures var run := [first, again];
            && first.mode == again.mode == Redis.FailClosed && first.fault == again.fault == Redis.NoFault
            && first.presentation.input == again.presentation.input
            && (forall e <- run :: AttemptOf(lib, s => s, e).Counts() && e.presentation.cacheNow <= e.storeNow)
            && first.storeNow == first.presentation.cacheNow
            && again.storeNow == again.presentation.cacheNow + MILLISECOND / 5 < Expiry(again.v, LateClaims())
            && Accepted(lib, s => s, run, 0) && Accepted(lib, s => s, run, 1)
  {
    lib := Library(
      _ => Some(Jws(1, "dpop+jwt", "ES256", Some("key"), "payload")), _ => Some(false), (_, _, _) => true,
      _ => Some(LateClaims()), _ => None, _ => "ath", _ => Some("jkt"),
      Nonce.Codec((_, _) => [], _ => "", _ => None));
    var v := Verifier(Opportunistic, DEFAULT_LEEWAY, AllowedAlgs(DEFAULT_ALGS), None);
    assert "ES256" in DEFAULT_ALGS by { assert DEFAULT_ALGS[0] == "ES256"; }
    var input := Input(["proof"], "POST", "https://h/p", "token", "jkt");
    var exp := Expiry(v, LateClaims());
    var t, u := exp - 19 * MILLISECOND / 10, exp - MILLISECOND;
    first := Event(v, Presentation(input, t, t), Redis.FailClosed, t, Redis.NoFault);
    again := Event(v, Presentation(input, u, u), Redis.FailClosed, u + MILLISECOND / 5, Redis.NoFault);
    SecondPresentationExactly(lib, s => s, first, again, "proof");
  }

  /** One replica's `Enforce` over the shared store does to it what its presentation does in a run. */
  method Enforce(
    lib: Library, v: Verifier, cache: Redis.ReplayCache, p: Presentation, storeNow: int, fault: Redis.Fault)
    returns (outcome: Outcome)
    modifies cache.store
    ensures var a := AttemptOf(lib, s => cache.prefix + cache.digest(s), Event(v, p, cache.mode, storeNow, fault));
            && cache.store.entries == Redis.Step(old(cache.store.entries), a)
            && match Screen(lib, v, p.input, p.verifierNow)
               case Answered(o) => outcome == o
               case ToCache(_) =>
                 outcome == if Redis.Replayed(old(cache.store.entries), a) then InvalidProof(Replayed) else Granted
  {
    match Screen(lib, v, p.input, p.verifierNow)
    case Answered(o) =>
      outcome := o;
    case ToCache(c) =>
      var replayed :=
        cache.SeenBefore(c.jti, StripURL(lib, c.htu), c.iat * SECOND + v.leeway, p.cacheNow, storeNow, fault);
      outcome := if replayed then InvalidProof(Replayed) else Granted;
  }

  function LateClaims(): Claims {
    Claims("jti", "POST", "https://h/p", 1000, "ath", "")
  }
}
