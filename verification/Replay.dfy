/**
 The in-memory replay cache: a map from "jti|htu" to the proof's expiry, swept
 inline whenever an insertion takes it past a threshold.

 A trace is the cache's view of a run: `Some(call)` for a call that reaches
 `SeenBefore`, `None` for a presentation that was turned away before it.  Every
 call holds the mutex, so a concurrent run is one such sequence.
 */
module Replay {
  import opened Base

  const SWEEP_THRESHOLD := 1024

  type Seen = map<string, int>

  datatype Call = Call(key: string, exp: int, now: int)

  type Trace = seq<Option<Call>>

  predicate Live(seen: Seen, key: string, now: int) {
    key in seen && now < seen[key]
  }

  function Sweep(seen: Seen, now: int): Seen {
    map key | key in seen && now < seen[key] :: seen[key]
  }

  function Insert(seen: Seen, call: Call): Seen {
    var grown := seen[call.key := call.exp];
    if |grown| > SWEEP_THRESHOLD then Sweep(grown, call.now) else grown
  }

  function Step(seen: Seen, call: Option<Call>): Seen {
    if call.None? || Live(seen, call.value.key, call.value.now) then seen
    else Insert(seen, call.value)
  }

  function After(trace: Trace): Seen {
    if trace == [] then map[] else Step(After(Init(trace)), Last(trace))
  }

  /** Call `i` was answered "not seen before", and so recorded. */
  predicate FirstSight(trace: Trace, i: nat)
    requires i < |trace|
  {
    trace[i].Some? && !Live(After(trace[..i]), trace[i].value.key, trace[i].value.now)
  }

  /** The cache's own clock never runs backwards from one call to a later one. */
  ghost predicate Ordered(trace: Trace) {
    forall i, j :: 0 <= i < j < |trace| && trace[i].Some? && trace[j].Some? ==>
      trace[i].value.now <= trace[j].value.now
  }

  /** The history specification: an earlier first sight of `key` outlives `now`. */
  ghost predicate SeenInHistory(trace: Trace, n: nat, key: string, now: int)
    requires n <= |trace|
  {
    exists j :: 0 <= j < n && FirstSight(trace, j) && trace[j].value.key == key && now < trace[j].value.exp
  }

  lemma AfterStep(trace: Trace, n: nat)
    requires n < |trace|
    ensures After(trace[..n + 1]) == Step(After(trace[..n]), trace[n])
  {
    assert Init(trace[..n + 1]) == trace[..n];
  }

  /** What an insertion leaves live at or after its own instant: the new entry and every other one. */
  lemma InsertKeepsLive(seen: Seen, call: Call, key: string, now: int)
    requires call.now <= now
    ensures Live(Insert(seen, call), key, now) <==>
            if key == call.key then now < call.exp else Live(seen, key, now)
  {
  }

  lemma {:induction false} LiveIsHistory(trace: Trace, n: nat, key: string, now: int)
    requires n <= |trace| && Ordered(trace)
    requires forall j :: 0 <= j < n && trace[j].Some? ==> trace[j].value.now <= now
    ensures Live(After(trace[..n]), key, now) <==> SeenInHistory(trace, n, key, now)
    decreases n
  {
    if n > 0 {
      LiveIsHistory(trace, n - 1, key, now);
      AfterStep(trace, n - 1);
      var before := After(trace[..n - 1]);
      if FirstSight(trace, n - 1) {
        var call := trace[n - 1].value;
        InsertKeepsLive(before, call, key, now);
        if call.key == key {
          // A history entry outliving `now` would have been live at the call too.
          assert !Live(before, key, now);
        }
      }
    }
  }

  /** `SeenBefore` answers true exactly when some earlier unexpired first sight has the same joined key. */
  lemma SeenBeforeIsHistory(trace: Trace, i: nat)
    requires i < |trace| && trace[i].Some? && Ordered(trace)
    ensures !FirstSight(trace, i) <==> SeenInHistory(trace, i, trace[i].value.key, trace[i].value.now)
  {
    LiveIsHistory(trace, i, trace[i].value.key, trace[i].value.now);
  }

  /** Every stored entry is the record of some first sight. */
  lemma {:induction false} EntriesAreFirstSights(trace: Trace, n: nat, key: string)
    requires n <= |trace| && key in After(trace[..n])
    ensures exists j :: 0 <= j < n && FirstSight(trace, j) && trace[j].value.key == key &&
                        trace[j].value.exp == After(trace[..n])[key]
    decreases n
  {
    if n > 0 {
      AfterStep(trace, n - 1);
      var before := After(trace[..n - 1]);
      if FirstSight(trace, n - 1) && trace[n - 1].value.key == key {
      } else {
        EntriesAreFirstSights(trace, n - 1, key);
      }
    }
  }

  ghost predicate NoneExpired(seen: Seen, now: int) {
    forall key <- seen :: now < seen[key]
  }

  /** Call `last` is the most recent insertion among the first `n` calls. */
  ghost predicate LastInsertion(trace: Trace, n: nat, last: nat)
    requires n <= |trace|
  {
    last < n && FirstSight(trace, last) && forall j :: last < j < n ==> !FirstSight(trace, j)
  }

  /**
   The map outgrows the threshold only with entries that were all unexpired at
   the last insertion.
   */
  lemma {:induction false} LargeMapsAreFresh(trace: Trace, n: nat)
    requires n <= |trace| && |After(trace[..n])| > SWEEP_THRESHOLD
    ensures exists last: nat ::
              LastInsertion(trace, n, last) && NoneExpired(After(trace[..n]), trace[last].value.now)
    decreases n
  {
    assert n > 0;
    AfterStep(trace, n - 1);
    if FirstSight(trace, n - 1) {
      assert LastInsertion(trace, n, n - 1);
    } else {
      LargeMapsAreFresh(trace, n - 1);
      var last: nat :| LastInsertion(trace, n - 1, last) &&
                       NoneExpired(After(trace[..n - 1]), trace[last].value.now);
      assert LastInsertion(trace, n, last);
    }
  }

  /** First sights whose caller read its own clock in the `span` ending at `end`. */
  ghost function FirstSightsInWindow(trace: Trace, readings: seq<int>, span: int, end: int): set<nat>
    requires |readings| == |trace|
  {
    set i: nat | i < |trace| && FirstSight(trace, i) && end - span < readings[i] <= end
  }

  function KeyAt(trace: Trace, i: nat): string {
    if i < |trace| && trace[i].Some? then trace[i].value.key else ""
  }

  /** The reading of every caller precedes the cache's, and its expiry is at most `span` after it. */
  ghost predicate ShortLived(trace: Trace, readings: seq<int>, span: int) {
    |readings| == |trace| &&
    forall i :: 0 <= i < |trace| && trace[i].Some? ==>
      readings[i] <= trace[i].value.now && trace[i].value.exp <= readings[i] + span
  }

  lemma LiveEntryIsInWindow(trace: Trace, readings: seq<int>, span: int, last: nat, key: string) returns (i: nat)
    requires Ordered(trace) && ShortLived(trace, readings, span)
    requires LastInsertion(trace, |trace|, last) && Live(After(trace), key, trace[last].value.now)
    ensures i in FirstSightsInWindow(trace, readings, span, trace[last].value.now) && KeyAt(trace, i) == key
  {
    assert trace[..|trace|] == trace;
    EntriesAreFirstSights(trace, |trace|, key);
    i :| 0 <= i < |trace| && FirstSight(trace, i) && trace[i].value.key == key &&
         trace[i].value.exp == After(trace)[key];
    assert i <= last;
  }

  /**
   A map past the threshold is no larger than the number of first sights in the
   `span` ending at the last insertion.
   */
  lemma MapFitsWindow(trace: Trace, readings: seq<int>, span: int)
    requires Ordered(trace) && ShortLived(trace, readings, span)
    ensures |After(trace)| <= SWEEP_THRESHOLD ||
            exists last: nat :: LastInsertion(trace, |trace|, last) &&
              |After(trace)| <= |FirstSightsInWindow(trace, readings, span, trace[last].value.now)|
  {
    var seen := After(trace);
    assert trace[..|trace|] == trace;
    if |seen| > SWEEP_THRESHOLD {
      LargeMapsAreFresh(trace, |trace|);
      var last: nat :| LastInsertion(trace, |trace|, last) && NoneExpired(seen, trace[last].value.now);
      var window := FirstSightsInWindow(trace, readings, span, trace[last].value.now);
      forall key <- seen.Keys ensures exists i <- window :: KeyAt(trace, i) == key {
        var i := LiveEntryIsInWindow(trace, readings, span, last, key);
      }
      ImageIsNoLarger(window, i => KeyAt(trace, i), seen.Keys);
    }
  }

  /** The mutex-guarded cache itself; `now` is the reading of its injected clock. */
  class MemoryReplayCache {
    var seen: Seen

    constructor ()
      ensures seen == After([])
    {
      seen := map[];
    }

    method SeenBefore(jti: string, htu: string, exp: int, now: int) returns (replay: bool)
      modifies this
      ensures replay == Live(old(seen), jti + "|" + htu, now)
      ensures seen == Step(old(seen), Some(Call(jti + "|" + htu, exp, now)))
    {
      var key := jti + "|" + htu;
      if key in seen && now < seen[key] {
        return true;
      }
      seen := seen[key := exp];
      if |seen| > SWEEP_THRESHOLD {
        ghost var grown := seen;
        var pending := seen.Keys;
        while pending != {}
          invariant pending <= seen.Keys <= grown.Keys
          invariant forall k <- seen :: seen[k] == grown[k]
          invariant forall k <- grown :: k in seen <==> k in pending || now < grown[k]
          decreases pending
        {
          var k :| k in pending;
          if !(now < seen[k]) {
            seen := seen - {k};
          }
          pending := pending - {k};
        }
        assert seen == Sweep(grown, now);
      }
      return false;
    }
  }
}
