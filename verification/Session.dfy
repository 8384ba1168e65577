/**
 The in-memory session store: expired sessions are reaped lazily, one user at a
 time.  It is compared with an ideal store that drops every user's expired
 sessions at every step.
 */
module Session {
  import opened Base

  datatype Config = Config(timeout: int, cap: int)

  datatype Session = Session(userID: string, lastSeen: int)

  type Sessions = map<string, Session>

  /** `id` is what the id generator delivers; it may repeat. */
  datatype Op =
    | Open(user: string, now: int, id: string)
    | Touch(session: string, now: int)
    | Close(session: string)
    | Count(user: string, now: int)

  datatype Reply =
    | Opened(id: string) | EmptyUser | LimitExceeded
    | Touched | InvalidSession | Closed | Counted(n: nat)

  predicate Expired(cfg: Config, s: Session, now: int) {
    cfg.timeout > 0 && now - s.lastSeen > cfg.timeout
  }

  function OfUser(m: Sessions, user: string): set<string> {
    set id | id in m && m[id].userID == user
  }

  // ---- The lazy store ----

  function Reap(cfg: Config, m: Sessions, user: string, now: int): Sessions {
    map id | id in m && !(m[id].userID == user && Expired(cfg, m[id], now)) :: m[id]
  }

  predicate AtCap(cfg: Config, m: Sessions, user: string) {
    cfg.cap > 0 && |OfUser(m, user)| >= cfg.cap
  }

  function LazyStep(cfg: Config, m: Sessions, op: Op): (Sessions, Reply) {
    match op
    case Open(user, now, id) =>
      if user == "" then (m, EmptyUser)
      else
        var reaped := Reap(cfg, m, user, now);
        if AtCap(cfg, reaped, user) then (reaped, LimitExceeded)
        else (reaped[id := Session(user, now)], Opened(id))
    case Touch(id, now) =>
      if id !in m then (m, InvalidSession)
      else if Expired(cfg, m[id], now) then (m - {id}, InvalidSession)
      else (m[id := m[id].(lastSeen := now)], Touched)
    case Close(id) => (m - {id}, Closed)
    case Count(user, now) =>
      var reaped := Reap(cfg, m, user, now);
      (reaped, Counted(|OfUser(reaped, user)|))
  }

  function LazyAfter(cfg: Config, m: Sessions, ops: seq<Op>): Sessions
    decreases |ops|
  {
    if ops == [] then m else LazyAfter(cfg, LazyStep(cfg, m, ops[0]).0, ops[1..])
  }

  function LazyReplies(cfg: Config, m: Sessions, ops: seq<Op>): seq<Reply>
    decreases |ops|
  {
    if ops == [] then []
    else var (m', reply) := LazyStep(cfg, m, ops[0]); [reply] + LazyReplies(cfg, m', ops[1..])
  }

  // ---- The ideal store ----

  function LiveAt(cfg: Config, m: Sessions, now: int): Sessions {
    map id | id in m && !Expired(cfg, m[id], now) :: m[id]
  }

  /** At every step that has a clock, all expired sessions are gone before anything else happens. */
  function IdealStep(cfg: Config, m: Sessions, op: Op): (Sessions, Reply) {
    match op
    case Open(user, now, id) =>
      var live := LiveAt(cfg, m, now);
      if user == "" then (live, EmptyUser)
      else if AtCap(cfg, live, user) then (live, LimitExceeded)
      else (live[id := Session(user, now)], Opened(id))
    case Touch(id, now) =>
      var live := LiveAt(cfg, m, now);
      if id in live then (live[id := live[id].(lastSeen := now)], Touched) else (live, InvalidSession)
    case Close(id) => (m - {id}, Closed)
    case Count(user, now) =>
      var live := LiveAt(cfg, m, now);
      (live, Counted(|OfUser(live, user)|))
  }

  function IdealReplies(cfg: Config, m: Sessions, ops: seq<Op>): seq<Reply>
    decreases |ops|
  {
    if ops == [] then []
    else var (m', reply) := IdealStep(cfg, m, ops[0]); [reply] + IdealReplies(cfg, m', ops[1..])
  }

  // ---- Refinement ----

  /** The clock after `op`, when it stood at `t` before. */
  function TimeAfter(op: Op, t: int): int {
    if op.Close? then t else op.now
  }

  ghost predicate Ordered(ops: seq<Op>, t: int) {
    ops == [] || (t <= TimeAfter(ops[0], t) && Ordered(ops[1..], TimeAfter(ops[0], t)))
  }

  lemma StepRefines(cfg: Config, m: Sessions, ideal: Sessions, op: Op, t: int)
    requires LiveAt(cfg, m, t) == LiveAt(cfg, ideal, t) && t <= TimeAfter(op, t)
    ensures LazyStep(cfg, m, op).1 == IdealStep(cfg, ideal, op).1
    ensures var t' := TimeAfter(op, t);
            LiveAt(cfg, LazyStep(cfg, m, op).0, t') == LiveAt(cfg, IdealStep(cfg, ideal, op).0, t')
  {
    var now := TimeAfter(op, t);
    LiveLater(cfg, m, t, now);
    LiveLater(cfg, ideal, t, now);
    match op
    case Open(user, _, id) =>
      ReapedCount(cfg, m, user, now);
      LiveOfInsert(cfg, Reap(cfg, m, user, now), id, Session(user, now), now);
      LiveOfInsert(cfg, LiveAt(cfg, ideal, now), id, Session(user, now), now);
    case Touch(id, _) =>
      assert LiveAt(cfg, m - {id}, now) == LiveAt(cfg, m, now) - {id};
      if id in m && !Expired(cfg, m[id], now) {
        assert id in LiveAt(cfg, m, now) && id in LiveAt(cfg, ideal, now);
        LiveOfInsert(cfg, m, id, m[id].(lastSeen := now), now);
        LiveOfInsert(cfg, LiveAt(cfg, ideal, now), id, m[id].(lastSeen := now), now);
      }
    case Close(id) =>
      assert LiveAt(cfg, m - {id}, now) == LiveAt(cfg, m, now) - {id};
      assert LiveAt(cfg, ideal - {id}, now) == LiveAt(cfg, ideal, now) - {id};
    case Count(user, _) =>
      ReapedCount(cfg, m, user, now);
  }

  lemma LiveLater(cfg: Config, m: Sessions, t: int, now: int)
    requires t <= now
    ensures LiveAt(cfg, LiveAt(cfg, m, t), now) == LiveAt(cfg, m, now)
  {
  }

  /** Reaping one user leaves that user's live sessions, and hides no other live session. */
  lemma ReapedCount(cfg: Config, m: Sessions, user: string, now: int)
    ensures OfUser(Reap(cfg, m, user, now), user) == OfUser(LiveAt(cfg, m, now), user)
    ensures LiveAt(cfg, Reap(cfg, m, user, now), now) == LiveAt(cfg, m, now)
  {
  }

  lemma LiveOfInsert(cfg: Config, m: Sessions, id: string, s: Session, now: int)
    requires s.lastSeen == now
    ensures LiveAt(cfg, m[id := s], now) == LiveAt(cfg, m, now)[id := s]
  {
  }

  lemma {:induction false} RunRefines(cfg: Config, m: Sessions, ideal: Sessions, ops: seq<Op>, t: int)
    requires LiveAt(cfg, m, t) == LiveAt(cfg, ideal, t) && Ordered(ops, t)
    ensures LazyReplies(cfg, m, ops) == IdealReplies(cfg, ideal, ops)
    decreases ops
  {
    if ops != [] {
      StepRefines(cfg, m, ideal, ops[0], t);
      RunRefines(cfg, LazyStep(cfg, m, ops[0]).0, IdealStep(cfg, ideal, ops[0]).0, ops[1..], TimeAfter(ops[0], t));
    }
  }

  /** Lazy reaping is invisible: every reply is the eager store's, for any id generator. */
  lemma LazyRefinesIdeal(cfg: Config, ops: seq<Op>, start: int)
    requires Ordered(ops, start)
    ensures LazyReplies(cfg, map[], ops) == IdealReplies(cfg, map[], ops)
  {
    RunRefines(cfg, map[], map[], ops, start);
  }

  // ---- The per-user cap ----

  ghost predicate CapHolds(cfg: Config, m: Sessions) {
    cfg.cap > 0 ==> forall user :: |OfUser(m, user)| <= cfg.cap
  }

  /** Only a successful `Open` of the user's own adds to the user's sessions. */
  lemma OthersDoNotGrow(cfg: Config, m: Sessions, op: Op, user: string)
    requires op.Open? ==> op.user != user
    ensures OfUser(LazyStep(cfg, m, op).0, user) <= OfUser(m, user)
  {
  }

  lemma OpenKeepsCap(cfg: Config, m: Sessions, user: string, now: int, id: string)
    requires cfg.cap > 0 && |OfUser(m, user)| <= cfg.cap
    ensures |OfUser(LazyStep(cfg, m, Open(user, now, id)).0, user)| <= cfg.cap
  {
    var reaped := Reap(cfg, m, user, now);
    SubsetIsNoLarger(OfUser(reaped, user), OfUser(m, user));
    assert OfUser(reaped[id := Session(user, now)], user) == OfUser(reaped, user) + {id};
  }

  lemma StepKeepsCap(cfg: Config, m: Sessions, op: Op)
    requires CapHolds(cfg, m)
    ensures CapHolds(cfg, LazyStep(cfg, m, op).0)
  {
    if cfg.cap > 0 {
      var m' := LazyStep(cfg, m, op).0;
      forall user ensures |OfUser(m', user)| <= cfg.cap {
        if op.Open? && op.user == user {
          OpenKeepsCap(cfg, m, user, op.now, op.id);
        } else {
          OthersDoNotGrow(cfg, m, op, user);
          SubsetIsNoLarger(OfUser(m', user), OfUser(m, user));
        }
      }
    }
  }

  /** No run exceeds the cap, whatever the clock (even backwards) and the ids (even repeated). */
  lemma {:induction false} RunKeepsCap(cfg: Config, m: Sessions, ops: seq<Op>)
    requires CapHolds(cfg, m)
    ensures CapHolds(cfg, LazyAfter(cfg, m, ops))
    decreases ops
  {
    if ops != [] {
      StepKeepsCap(cfg, m, ops[0]);
      RunKeepsCap(cfg, LazyStep(cfg, m, ops[0]).0, ops[1..]);
    }
  }

  /** In every reachable state, `Open` is refused for the cap exactly when the user's live sessions fill it. */
  lemma RefusedExactlyAtCap(cfg: Config, ops: seq<Op>, user: string, now: int, id: string)
    ensures var m := LazyAfter(cfg, map[], ops);
            LazyStep(cfg, m, Open(user, now, id)).1 == LimitExceeded <==>
            user != "" && cfg.cap > 0 && |OfUser(LiveAt(cfg, m, now), user)| == cfg.cap
  {
    var m := LazyAfter(cfg, map[], ops);
    assert CapHolds(cfg, map[]) by {
      forall user ensures |OfUser(map[], user)| == 0 {
        assert OfUser(map[], user) == {};
      }
    }
    RunKeepsCap(cfg, map[], ops);
    ReapedCount(cfg, m, user, now);
    SubsetIsNoLarger(OfUser(LiveAt(cfg, m, now), user), OfUser(m, user));
  }

  // ---- From the history of operations alone ----

  /** The reply says that `op` refreshed session `id`. */
  predicate RefreshedBy(op: Op, reply: Reply, id: string) {
    (op.Open? && reply == Opened(id)) || (op.Touch? && op.session == id && reply == Touched)
  }

  /** Operation `k` opened session `id` or slid it forward. */
  predicate Refreshes(ops: seq<Op>, replies: seq<Reply>, k: nat, id: string)
    requires k < |ops| == |replies|
  {
    RefreshedBy(ops[k], replies[k], id)
  }

  /** Operation `k` is the last of the first `n` to refresh session `id`, which was not closed since. */
  ghost predicate LatestRefresh(ops: seq<Op>, replies: seq<Reply>, n: nat, id: string, k: nat)
    requires n <= |ops| == |replies|
  {
    && k < n && Refreshes(ops, replies, k, id)
    && forall j :: k < j < n ==> !Refreshes(ops, replies, j, id) && ops[j] != Close(id)
  }

  /** Operation `k` is the last of the first `n` to open session `id`, and did so for `user`. */
  ghost predicate OpenedFor(ops: seq<Op>, replies: seq<Reply>, n: nat, id: string, user: string, k: nat)
    requires n <= |ops| == |replies|
  {
    && k < n && ops[k].Open? && replies[k] == Opened(id) && ops[k].user == user
    && forall j :: k < j < n ==> replies[j] != Opened(id)
  }

  /** By its history, session `id` is in use at `now`: refreshed no longer ago than the timeout, if there is one. */
  ghost predicate InUse(cfg: Config, ops: seq<Op>, replies: seq<Reply>, n: nat, id: string, now: int)
    requires n <= |ops| == |replies|
  {
    exists k: nat :: LatestRefresh(ops, replies, n, id, k) && (cfg.timeout <= 0 || now - ops[k].now <= cfg.timeout)
  }

  ghost predicate Owns(ops: seq<Op>, replies: seq<Reply>, n: nat, id: string, user: string)
    requires n <= |ops| == |replies|
  {
    exists k: nat :: OpenedFor(ops, replies, n, id, user, k)
  }

  /** The sessions of `user` that are in use at `now`. */
  ghost function SessionsInUse(cfg: Config, ops: seq<Op>, replies: seq<Reply>, n: nat, user: string, now: int)
    : set<string>
    requires n <= |ops| == |replies|
  {
    set k: nat | k < n && replies[k].Opened? && Owns(ops, replies, n, replies[k].id, user) &&
                 InUse(cfg, ops, replies, n, replies[k].id, now) :: replies[k].id
  }

  lemma {:induction false} RepliesStepwise(cfg: Config, m: Sessions, ops: seq<Op>, n: nat)
    requires n < |ops|
    ensures |LazyReplies(cfg, m, ops)| == |ops|
    ensures LazyReplies(cfg, m, ops)[n] == LazyStep(cfg, LazyAfter(cfg, m, ops[..n]), ops[n]).1
    ensures LazyAfter(cfg, m, ops[..n + 1]) == LazyStep(cfg, LazyAfter(cfg, m, ops[..n]), ops[n]).0
    decreases |ops|
  {
    var m' := LazyStep(cfg, m, ops[0]).0;
    if n > 0 {
      RepliesStepwise(cfg, m', ops[1..], n - 1);
      assert ops[..n][1..] == ops[1..][..n - 1] && ops[..n + 1][1..] == ops[1..][..n];
    } else {
      assert ops[..1][1..] == [];
      if |ops| > 1 {
        RepliesStepwise(cfg, m', ops[1..], 0);
      }
    }
  }

  /** The clock after the first `n` operations. */
  function ClockAt(ops: seq<Op>, n: nat, start: int): int
    requires n <= |ops|
  {
    if n == 0 then start else TimeAfter(ops[n - 1], ClockAt(ops, n - 1, start))
  }

  lemma {:induction false} ClockAdvances(ops: seq<Op>, n: nat, start: int)
    requires n < |ops| && Ordered(ops, start)
    ensures ClockAt(ops, n, start) <= ClockAt(ops, n + 1, start)
    decreases |ops|
  {
    if n > 0 {
      var later := TimeAfter(ops[0], start);
      ClockAdvances(ops[1..], n - 1, later);
      ClockShift(ops, n, start);
      ClockShift(ops, n + 1, start);
    }
  }

  lemma {:induction false} ClockShift(ops: seq<Op>, n: nat, start: int)
    requires 0 < n <= |ops|
    ensures ClockAt(ops, n, start) == ClockAt(ops[1..], n - 1, TimeAfter(ops[0], start))
  {
    if n > 1 {
      ClockShift(ops, n - 1, start);
    }
  }

  /** The store holds what history says, but for sessions that have already timed out. */
  ghost predicate Recorded(cfg: Config, ops: seq<Op>, replies: seq<Reply>, n: nat, m: Sessions, t: int)
    requires n <= |ops| == |replies|
  {
    && (forall id <- m :: exists k: nat :: LatestRefresh(ops, replies, n, id, k) && ops[k].now == m[id].lastSeen)
    && (forall id <- m :: Owns(ops, replies, n, id, m[id].userID))
    && (forall id, k: nat | LatestRefresh(ops, replies, n, id, k) && id !in m ::
          cfg.timeout > 0 && t - ops[k].now > cfg.timeout)
  }

  /** How one more operation moves the latest refresh and the latest opening. */
  lemma HistoryStep(ops: seq<Op>, replies: seq<Reply>, n: nat, id: string, k: nat)
    requires n < |ops| == |replies|
    ensures LatestRefresh(ops, replies, n + 1, id, k) <==>
            if Refreshes(ops, replies, n, id) then k == n
            else ops[n] != Close(id) && LatestRefresh(ops, replies, n, id, k)
  {
  }

  lemma OwnerStep(ops: seq<Op>, replies: seq<Reply>, n: nat, id: string, user: string)
    requires n < |ops| == |replies| && (replies[n] == Opened(id) ==> ops[n].Open?)
    ensures Owns(ops, replies, n + 1, id, user) <==>
            if replies[n] == Opened(id) then ops[n].user == user else Owns(ops, replies, n, id, user)
  {
    if replies[n] == Opened(id) {
      if ops[n].user == user {
        assert OpenedFor(ops, replies, n + 1, id, user, n);
      }
    } else {
      if Owns(ops, replies, n, id, user) {
        var k: nat :| OpenedFor(ops, replies, n, id, user, k);
        assert OpenedFor(ops, replies, n + 1, id, user, k);
      }
      if Owns(ops, replies, n + 1, id, user) {
        var k: nat :| OpenedFor(ops, replies, n + 1, id, user, k);
        assert OpenedFor(ops, replies, n, id, user, k);
      }
    }
  }

  lemma StepEffect(cfg: Config, m: Sessions, op: Op, id: string)
    ensures var (m', reply) := LazyStep(cfg, m, op);
            if RefreshedBy(op, reply, id) then
              && id in m' && m'[id].lastSeen == op.now
              && if op.Open? then m'[id].userID == op.user else id in m && m'[id].userID == m[id].userID
            else if id in m' then op != Close(id) && id in m && m'[id] == m[id]
            else id in m ==> op == Close(id) || (cfg.timeout > 0 && !op.Close? && op.now - m[id].lastSeen > cfg.timeout)
  {
  }

  lemma EntryStaysRecorded(cfg: Config, ops: seq<Op>, replies: seq<Reply>, n: nat, m: Sessions, t: int, id: string)
    requires n < |ops| == |replies| && Recorded(cfg, ops, replies, n, m, t)
    requires replies[n] == LazyStep(cfg, m, ops[n]).1 && id in LazyStep(cfg, m, ops[n]).0
    ensures var s := LazyStep(cfg, m, ops[n]).0[id];
            && (exists k: nat :: LatestRefresh(ops, replies, n + 1, id, k) && ops[k].now == s.lastSeen)
            && Owns(ops, replies, n + 1, id, s.userID)
  {
    StepEffect(cfg, m, ops[n], id);
    OwnerStep(ops, replies, n, id, LazyStep(cfg, m, ops[n]).0[id].userID);
    if Refreshes(ops, replies, n, id) {
      HistoryStep(ops, replies, n, id, n);
    } else {
      var k: nat :| LatestRefresh(ops, replies, n, id, k) && ops[k].now == m[id].lastSeen;
      HistoryStep(ops, replies, n, id, k);
    }
  }

  lemma LatestRefreshIsUnique(ops: seq<Op>, replies: seq<Reply>, n: nat, id: string, j: nat, k: nat)
    requires n <= |ops| == |replies| && LatestRefresh(ops, replies, n, id, j) && LatestRefresh(ops, replies, n, id, k)
    ensures j == k
  {
  }

  lemma MissingHasTimedOut(
    cfg: Config, ops: seq<Op>, replies: seq<Reply>, n: nat, m: Sessions, t: int, id: string, k: nat)
    requires n < |ops| == |replies| && Recorded(cfg, ops, replies, n, m, t) && t <= TimeAfter(ops[n], t)
    requires replies[n] == LazyStep(cfg, m, ops[n]).1 && id !in LazyStep(cfg, m, ops[n]).0
    requires LatestRefresh(ops, replies, n + 1, id, k)
    ensures cfg.timeout > 0 && TimeAfter(ops[n], t) - ops[k].now > cfg.timeout
  {
    StepEffect(cfg, m, ops[n], id);
    HistoryStep(ops, replies, n, id, k);
    if id in m {
      var j: nat :| LatestRefresh(ops, replies, n, id, j) && ops[j].now == m[id].lastSeen;
      LatestRefreshIsUnique(ops, replies, n, id, j, k);
    }
  }

  lemma StepKeepsRecorded(cfg: Config, ops: seq<Op>, replies: seq<Reply>, n: nat, m: Sessions, t: int)
    requires n < |ops| == |replies| && Recorded(cfg, ops, replies, n, m, t) && t <= TimeAfter(ops[n], t)
    requires replies[n] == LazyStep(cfg, m, ops[n]).1
    ensures Recorded(cfg, ops, replies, n + 1, LazyStep(cfg, m, ops[n]).0, TimeAfter(ops[n], t))
  {
    var m' := LazyStep(cfg, m, ops[n]).0;
    forall id <- m'
      ensures exists k: nat :: LatestRefresh(ops, replies, n + 1, id, k) && ops[k].now == m'[id].lastSeen
      ensures Owns(ops, replies, n + 1, id, m'[id].userID)
    {
      EntryStaysRecorded(cfg, ops, replies, n, m, t, id);
    }
    forall id, k: nat | LatestRefresh(ops, replies, n + 1, id, k) && id !in m'
      ensures cfg.timeout > 0 && TimeAfter(ops[n], t) - ops[k].now > cfg.timeout
    {
      MissingHasTimedOut(cfg, ops, replies, n, m, t, id, k);
    }
  }

  lemma {:induction false} RunIsRecorded(cfg: Config, ops: seq<Op>, start: int, n: nat)
    requires n <= |ops| && Ordered(ops, start) && |LazyReplies(cfg, map[], ops)| == |ops|
    ensures Recorded(cfg, ops, LazyReplies(cfg, map[], ops), n, LazyAfter(cfg, map[], ops[..n]), ClockAt(ops, n, start))
    decreases n
  {
    if n > 0 {
      RunIsRecorded(cfg, ops, start, n - 1);
      RepliesStepwise(cfg, map[], ops, n - 1);
      ClockAdvances(ops, n - 1, start);
      StepKeepsRecorded(cfg, ops, LazyReplies(cfg, map[], ops), n - 1,
                        LazyAfter(cfg, map[], ops[..n - 1]), ClockAt(ops, n - 1, start));
    }
  }

  lemma OwnerIsUnique(ops: seq<Op>, replies: seq<Reply>, n: nat, id: string, user: string, other: string)
    requires n <= |ops| == |replies| && Owns(ops, replies, n, id, user) && Owns(ops, replies, n, id, other)
    ensures user == other
  {
    var j: nat, k: nat :| OpenedFor(ops, replies, n, id, user, j) && OpenedFor(ops, replies, n, id, other, k);
    assert j == k;
  }

  lemma InUseIsStored(
    cfg: Config, ops: seq<Op>, replies: seq<Reply>, n: nat, m: Sessions, t: int, id: string, now: int)
    requires n <= |ops| == |replies| && Recorded(cfg, ops, replies, n, m, t) && t <= now
    ensures InUse(cfg, ops, replies, n, id, now) <==>
            id in m && (cfg.timeout <= 0 || now - m[id].lastSeen <= cfg.timeout)
  {
    if id in m {
      var j: nat :| LatestRefresh(ops, replies, n, id, j) && ops[j].now == m[id].lastSeen;
      forall k: nat | LatestRefresh(ops, replies, n, id, k) ensures k == j {
        LatestRefreshIsUnique(ops, replies, n, id, j, k);
      }
    }
  }

  lemma ReapLeavesInUse(
    cfg: Config, ops: seq<Op>, replies: seq<Reply>, n: nat, m: Sessions, t: int, user: string, now: int)
    requires n <= |ops| == |replies| && Recorded(cfg, ops, replies, n, m, t) && t <= now
    ensures OfUser(Reap(cfg, m, user, now), user) == SessionsInUse(cfg, ops, replies, n, user, now)
  {
    var left, used := OfUser(Reap(cfg, m, user, now), user), SessionsInUse(cfg, ops, replies, n, user, now);
    forall id ensures id in left <==> id in used {
      InUseIsStored(cfg, ops, replies, n, m, t, id, now);
      if id in left {
        var k: nat :| OpenedFor(ops, replies, n, id, user, k);
        assert replies[k].id == id;
      }
      if id in used {
        OwnerIsUnique(ops, replies, n, id, user, m[id].userID);
      }
    }
  }

  /**
   Every reply of every run, from the operations and replies before it: a session
   lasts from its opening, through each touch within the timeout of the one
   before, until it is closed or left alone for longer than the timeout; and a
   user is refused exactly when the sessions in use fill the cap.
   */
  lemma RepliesFromHistory(cfg: Config, ops: seq<Op>, start: int, n: nat)
    requires Ordered(ops, start) && n < |ops|
    ensures |LazyReplies(cfg, map[], ops)| == |ops|
    ensures var replies := LazyReplies(cfg, map[], ops);
            replies[n] ==
            match ops[n]
            case Open(user, now, id) =>
              if user == "" then EmptyUser
              else if 0 < cfg.cap <= |SessionsInUse(cfg, ops, replies, n, user, now)| then LimitExceeded
              else Opened(id)
            case Touch(id, now) => if InUse(cfg, ops, replies, n, id, now) then Touched else InvalidSession
            case Close(_) => Closed
            case Count(user, now) => Counted(|SessionsInUse(cfg, ops, replies, n, user, now)|)
  {
    RepliesStepwise(cfg, map[], ops, n);
    RunIsRecorded(cfg, ops, start, n);
    ClockAdvances(ops, n, start);
    var replies, m, t := LazyReplies(cfg, map[], ops), LazyAfter(cfg, map[], ops[..n]), ClockAt(ops, n, start);
    match ops[n]
    case Open(user, now, _) => ReapLeavesInUse(cfg, ops, replies, n, m, t, user, now);
    case Touch(id, now) => InUseIsStored(cfg, ops, replies, n, m, t, id, now);
    case Close(_) =>
    case Count(user, now) => ReapLeavesInUse(cfg, ops, replies, n, m, t, user, now);
  }

  // ---- The store itself ----

  class MemoryStore {
    const cfg: Config
    var sessions: Sessions

    constructor (cfg: Config)
      ensures this.cfg == cfg && sessions == map[]
    {
      this.cfg := cfg;
      sessions := map[];
    }

    method ReapForUser(user: string, now: int)
      modifies this
      ensures sessions == Reap(cfg, old(sessions), user, now)
    {
      if cfg.timeout <= 0 {
        assert sessions == Reap(cfg, sessions, user, now);
        return;
      }
      ghost var before := sessions;
      var pending := sessions.Keys;
      while pending != {}
        invariant pending <= sessions.Keys <= before.Keys
        invariant forall id <- sessions :: sessions[id] == before[id]
        invariant forall id <- before ::
          id in sessions <==> id in pending || !(before[id].userID == user && Expired(cfg, before[id], now))
        decreases pending
      {
        var id :| id in pending;
        if sessions[id].userID == user && now - sessions[id].lastSeen > cfg.timeout {
          sessions := sessions - {id};
        }
        pending := pending - {id};
      }
      assert sessions == Reap(cfg, before, user, now);
    }

    method CountForUser(user: string) returns (n: nat)
      ensures n == |OfUser(sessions, user)|
    {
      n := 0;
      var pending := sessions.Keys;
      while pending != {}
        invariant pending <= sessions.Keys
        invariant n == |OfUser(sessions, user) - pending|
        decreases pending
      {
        var id :| id in pending;
        var counted := OfUser(sessions, user) - pending;
        if sessions[id].userID == user {
          n := n + 1;
          assert OfUser(sessions, user) - (pending - {id}) == counted + {id};
        } else {
          assert OfUser(sessions, user) - (pending - {id}) == counted;
        }
        pending := pending - {id};
      }
      assert OfUser(sessions, user) - {} == OfUser(sessions, user);
    }

    method Open(user: string, now: int, newID: string) returns (reply: Reply)
      modifies this
      ensures (sessions, reply) == LazyStep(cfg, old(sessions), Op.Open(user, now, newID))
    {
      if user == "" {
        return EmptyUser;
      }
      ReapForUser(user, now);
      var n := CountForUser(user);
      if cfg.cap > 0 && n >= cfg.cap {
        return LimitExceeded;
      }
      sessions := sessions[newID := Session(user, now)];
      return Opened(newID);
    }

    method Touch(id: string, now: int) returns (reply: Reply)
      modifies this
      ensures (sessions, reply) == LazyStep(cfg, old(sessions), Op.Touch(id, now))
    {
      if id !in sessions {
        return InvalidSession;
      }
      if cfg.timeout > 0 && now - sessions[id].lastSeen > cfg.timeout {
        sessions := sessions - {id};
        return InvalidSession;
      }
      sessions := sessions[id := sessions[id].(lastSeen := now)];
      return Touched;
    }

    method Close(id: string)
      modifies this
      ensures sessions == LazyStep(cfg, old(sessions), Op.Close(id)).0
    {
      sessions := sessions - {id};
    }

    method Count(user: string, now: int) returns (n: nat)
      modifies this
      ensures (sessions, Counted(n)) == LazyStep(cfg, old(sessions), Op.Count(user, now))
    {
      ReapForUser(user, now);
      n := CountForUser(user);
    }
  }
}
