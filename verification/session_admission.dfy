/** Admission control over whole runs of the store: capacity caps, the sliding issuance window
    and the retry delay. */
module SessionAdmission {
  import opened Wrappers
  import opened SessionModel

  function RunStore(start: Store, ops: seq<StoreOp>, l: Limits): Store {
    if ops == [] then start else Step(RunStore(start, ops[..|ops| - 1], l), ops[|ops| - 1], l)
  }

  lemma SubsetCardinality<T>(small: set<T>, large: set<T>)
    requires small <= large
    ensures |small| <= |large|
  {
    assert large == small + (large - small);
  }

  // ----- Capacity -----

  ghost predicate CapsHold(s: StoreState, l: Limits) {
    |s.sessions| <= l.maxSessions
    && (forall p :: |PrincipalKeys(s.sessions, p)| <= l.maxPerPrincipal)
    && (forall p :: |RecentOf(s.recent, p)| <= l.maxIssuances)
  }

  lemma FewerSessionsKeepCaps(few: map<Digest, Record>, many: map<Digest, Record>, l: Limits)
    requires few.Keys <= many.Keys && forall k :: k in few ==> few[k] == many[k]
    requires |many| <= l.maxSessions && forall p :: |PrincipalKeys(many, p)| <= l.maxPerPrincipal
    ensures |few| <= l.maxSessions && forall p :: |PrincipalKeys(few, p)| <= l.maxPerPrincipal
  {
    assert |few.Keys| == |few| && |many.Keys| == |many|;
    SubsetCardinality(few.Keys, many.Keys);
    forall p ensures |PrincipalKeys(few, p)| <= l.maxPerPrincipal {
      SubsetCardinality(PrincipalKeys(few, p), PrincipalKeys(many, p));
    }
  }

  lemma {:induction false} KeepRecentShrinks(times: seq<SystemTime>, now: SystemTime, window: Duration)
    ensures |KeepRecent(times, now, window)| <= |times|
  {
    if times != [] {
      KeepRecentShrinks(times[1..], now, window);
    }
  }

  lemma RecentOfPruned(recent: map<Principal, seq<SystemTime>>, now: SystemTime, window: Duration, p: Principal)
    ensures RecentOf(PruneRecent(recent, now, window), p) == KeepRecent(RecentOf(recent, p), now, window)
  {
  }

  lemma PruneKeepsCaps(s: StoreState, now: SystemTime, l: Limits)
    requires CapsHold(s, l)
    ensures CapsHold(Prune(s, now, l), l)
  {
    FewerSessionsKeepCaps(PruneExpired(s.sessions, now), s.sessions, l);
    forall p ensures |RecentOf(Prune(s, now, l).recent, p)| <= l.maxIssuances {
      RecentOfPruned(s.recent, now, l.window, p);
      KeepRecentShrinks(RecentOf(s.recent, p), now, l.window);
    }
  }

  lemma InsertCountsOnePrincipal(sessions: map<Digest, Record>, key: Digest, r: Record, p: Principal)
    requires key !in sessions
    ensures |PrincipalKeys(sessions[key := r], p)|
         == |PrincipalKeys(sessions, p)| + (if p == PrincipalOf(r.metadata) then 1 else 0)
  {
    assert PrincipalKeys(sessions[key := r], p)
        == PrincipalKeys(sessions, p) + (if p == PrincipalOf(r.metadata) then {key} else {});
  }

  lemma InsertKeepsCaps(s: StoreState, key: Digest, r: Record, now: SystemTime, l: Limits)
    requires CapsHold(s, l) && ValidLimits(l) && key !in s.sessions
    requires EnforceAdmission(s, PrincipalOf(r.metadata), now, l) == None
    ensures CapsHold(InsertSession(s, key, r), l)
  {
    var after := InsertSession(s, key, r);
    var mine := PrincipalOf(r.metadata);
    assert |after.sessions| <= l.maxSessions;
    forall p ensures |PrincipalKeys(after.sessions, p)| <= l.maxPerPrincipal {
      InsertCountsOnePrincipal(s.sessions, key, r, p);
    }
    forall p ensures |RecentOf(after.recent, p)| <= l.maxIssuances {
      if p != mine {
        assert RecentOf(after.recent, p) == RecentOf(s.recent, p);
      } else {
        assert |RecentOf(after.recent, p)| == |RecentOf(s.recent, p)| + 1;
      }
    }
  }

  lemma StepKeepsCaps(s: Store, op: StoreOp, l: Limits)
    requires CapsHold(s.state, l) && ValidLimits(l)
    ensures CapsHold(Step(s, op, l).state, l)
  {
    match op {
      case IssueOp(q) =>
        var pruned := Prune(s.state, q.now, l);
        PruneKeepsCaps(s.state, q.now, l);
        var (after, r) := Issue(s, q, l);
        if r.Success? {
          InsertKeepsCaps(pruned, r.value, NewRecord(q), q.now, l);
        }
      case VerifyOp(key, now) =>
        FewerSessionsKeepCaps(TakeActive(s.state.sessions, key, now).0, s.state.sessions, l);
      case RevokeOp(key, now, ok) =>
        FewerSessionsKeepCaps(s.state.sessions - {key}, s.state.sessions, l);
      case CountOp(now) =>
        FewerSessionsKeepCaps(PruneExpired(s.state.sessions, now), s.state.sessions, l);
    }
  }

  /** No cap is ever exceeded, whatever the clock reads and whether or not SQLite fails. */
  lemma {:induction false} CapsHoldForAnyClock(start: Store, ops: seq<StoreOp>, l: Limits)
    requires CapsHold(start.state, l) && ValidLimits(l)
    ensures CapsHold(RunStore(start, ops, l).state, l)
  {
    if ops != [] {
      CapsHoldForAnyClock(start, ops[..|ops| - 1], l);
      StepKeepsCaps(RunStore(start, ops[..|ops| - 1], l), ops[|ops| - 1], l);
    }
  }

  lemma IssuedSessions(s: Store, q: IssueRequest, l: Limits)
    ensures var (after, r) := Issue(s, q, l);
            var pruned := PruneExpired(s.state.sessions, q.now);
            match r
            case Success(key) =>
              key in q.candidates && key !in pruned && after.state.sessions == pruned[key := NewRecord(q)]
            case Failure(_) => after.state.sessions == s.state.sessions || after.state.sessions == pruned
  {
  }

  /** An issue request loses no session that has not expired, and gains exactly the accepted one,
      under a key that no unexpired session holds. */
  lemma IssueEvictsNothing(s: Store, q: IssueRequest, l: Limits, k: Digest)
    ensures var (after, r) := Issue(s, q, l);
            (k in s.state.sessions && q.now < s.state.sessions[k].metadata.expiresAt ==>
               k in after.state.sessions && after.state.sessions[k] == s.state.sessions[k] && r != Success(k))
            && (k in after.state.sessions ==>
               (k in s.state.sessions && after.state.sessions[k] == s.state.sessions[k] && r != Success(k))
               || (r == Success(k) && after.state.sessions[k] == NewRecord(q)))
            && (r == Success(k) ==> k in after.state.sessions)
  {
    IssuedSessions(s, q, l);
  }

  // ----- Sliding window -----

  /** The operation issues a session for the principal. */
  predicate IssuesFor(s: Store, op: StoreOp, l: Limits, p: Principal) {
    op.IssueOp? && PrincipalOf(NewRecord(op.request).metadata) == p && Issue(s, op.request, l).1.Success?
  }

  /** Issue times of the principal's successful issuances, revoked and expired ones included. */
  ghost function IssueTimes(start: Store, ops: seq<StoreOp>, l: Limits, p: Principal): seq<SystemTime> {
    if ops == [] then []
    else
      var before := ops[..|ops| - 1];
      var op := ops[|ops| - 1];
      IssueTimes(start, before, l, p) + if IssuesFor(RunStore(start, before, l), op, l, p) then [Clock(op)] else []
  }

  predicate ClockNeverBack(ops: seq<StoreOp>) {
    forall i, j :: 0 <= i <= j < |ops| ==> Clock(ops[i]) <= Clock(ops[j])
  }

  lemma {:induction false} KeepRecentConcat(a: seq<SystemTime>, b: seq<SystemTime>, now: SystemTime, window: Duration)
    ensures KeepRecent(a + b, now, window) == KeepRecent(a, now, window) + KeepRecent(b, now, window)
  {
    if a == [] {
      assert a + b == b;
    } else {
      assert (a + b)[1..] == a[1..] + b;
      KeepRecentConcat(a[1..], b, now, window);
    }
  }

  lemma {:induction false} KeepRecentAbsorbs(times: seq<SystemTime>, early: SystemTime, late: SystemTime, window: Duration)
    requires early <= late
    ensures KeepRecent(KeepRecent(times, early, window), late, window) == KeepRecent(times, late, window)
  {
    if times != [] {
      KeepRecentAbsorbs(times[1..], early, late, window);
      var head := if early < times[0] + window then [times[0]] else [];
      KeepRecentConcat(head, KeepRecent(times[1..], early, window), late, window);
      assert head != [] ==> head[1..] == [];
    }
  }

  /** From `now` on, the pruned deque and the full issue history agree about the current window. */
  ghost predicate DequeMatchesHistory(s: StoreState, l: Limits, p: Principal, history: seq<SystemTime>, now: SystemTime) {
    forall t :: now <= t ==> KeepRecent(RecentOf(s.recent, p), t, l.window) == KeepRecent(history, t, l.window)
  }

  lemma PruneKeepsMatch(s: StoreState, l: Limits, p: Principal, history: seq<SystemTime>, now: SystemTime)
    requires DequeMatchesHistory(s, l, p, history, now)
    ensures DequeMatchesHistory(Prune(s, now, l), l, p, history, now)
    ensures RecentOf(Prune(s, now, l).recent, p) == KeepRecent(history, now, l.window)
  {
    RecentOfPruned(s.recent, now, l.window, p);
    forall t | now <= t
      ensures KeepRecent(RecentOf(Prune(s, now, l).recent, p), t, l.window) == KeepRecent(history, t, l.window)
    {
      KeepRecentAbsorbs(RecentOf(s.recent, p), now, t, l.window);
    }
  }

  /** The history after every prefix of a run respects the window that ends with its last issuance. */
  ghost predicate WindowRespected(history: seq<SystemTime>, l: Limits) {
    forall i :: 0 <= i < |history| ==> |KeepRecent(history[..i + 1], history[i], l.window)| <= l.maxIssuances
  }

  ghost predicate Ascending(times: seq<SystemTime>) {
    forall i, j :: 0 <= i <= j < |times| ==> times[i] <= times[j]
  }

  lemma WindowRespectedExtends(history: seq<SystemTime>, now: SystemTime, l: Limits)
    requires WindowRespected(history, l)
    requires |KeepRecent(history, now, l.window)| < l.maxIssuances
    ensures WindowRespected(history + [now], l)
  {
    KeepRecentConcat(history, [now], now, l.window);
    var longer := history + [now];
    forall i | 0 <= i < |longer|
      ensures |KeepRecent(longer[..i + 1], longer[i], l.window)| <= l.maxIssuances
    {
      assert longer[..i + 1] == if i < |history| then history[..i + 1] else longer;
    }
  }

  lemma MatchExtends(before: StoreState, after: StoreState, l: Limits, p: Principal, history: seq<SystemTime>, now: SystemTime)
    requires DequeMatchesHistory(before, l, p, history, now)
    requires RecentOf(after.recent, p) == RecentOf(before.recent, p) + [now]
    ensures DequeMatchesHistory(after, l, p, history + [now], now)
  {
    forall t | now <= t
      ensures KeepRecent(RecentOf(after.recent, p), t, l.window) == KeepRecent(history + [now], t, l.window)
    {
      KeepRecentConcat(RecentOf(before.recent, p), [now], t, l.window);
      KeepRecentConcat(history, [now], t, l.window);
    }
  }

  lemma AcceptedIssue(s: Store, q: IssueRequest, l: Limits)
    requires Issue(s, q, l).1.Success?
    ensures EnforceAdmission(Prune(s.state, q.now, l), PrincipalOf(NewRecord(q).metadata), q.now, l) == None
    ensures Issue(s, q, l).0.state == InsertSession(Prune(s.state, q.now, l), Issue(s, q, l).1.value, NewRecord(q))
  {
  }

  lemma IssueRespectsWindow(s: Store, q: IssueRequest, l: Limits, p: Principal, history: seq<SystemTime>)
    requires ValidLimits(l) && IssuesFor(s, IssueOp(q), l, p)
    requires DequeMatchesHistory(s.state, l, p, history, q.now)
    requires WindowRespected(history, l)
    ensures DequeMatchesHistory(Step(s, IssueOp(q), l).state, l, p, history + [q.now], q.now)
    ensures WindowRespected(history + [q.now], l)
  {
    AcceptedIssue(s, q, l);
    var pruned := Prune(s.state, q.now, l);
    PruneKeepsMatch(s.state, l, p, history, q.now);
    WindowRespectedExtends(history, q.now, l);
    MatchExtends(pruned, Issue(s, q, l).0.state, l, p, history, q.now);
  }

  lemma OtherStepKeepsMatch(s: Store, op: StoreOp, l: Limits, p: Principal, history: seq<SystemTime>)
    requires DequeMatchesHistory(s.state, l, p, history, Clock(op)) && !IssuesFor(s, op, l, p)
    ensures DequeMatchesHistory(Step(s, op, l).state, l, p, history, Clock(op))
  {
    if op.IssueOp? {
      var pruned := Prune(s.state, op.request.now, l);
      PruneKeepsMatch(s.state, l, p, history, op.request.now);
      assert RecentOf(Step(s, op, l).state.recent, p) == RecentOf(pruned.recent, p)
          || RecentOf(Step(s, op, l).state.recent, p) == RecentOf(s.state.recent, p);
    }
  }

  /** What holds of the store and the issue history after every run. */
  ghost predicate Tracked(s: StoreState, l: Limits, p: Principal, history: seq<SystemTime>, now: SystemTime) {
    Ascending(history) && WindowRespected(history, l) && DequeMatchesHistory(s, l, p, history, now)
    && forall i :: 0 <= i < |history| ==> history[i] <= now
  }

  lemma AscendingExtends(history: seq<SystemTime>, now: SystemTime)
    requires Ascending(history) && forall i :: 0 <= i < |history| ==> history[i] <= now
    ensures Ascending(history + [now]) && forall i :: 0 <= i < |history + [now]| ==> (history + [now])[i] <= now
  {
  }

  lemma StepKeepsTrack(s: Store, op: StoreOp, l: Limits, p: Principal, history: seq<SystemTime>)
    requires ValidLimits(l) && Tracked(s.state, l, p, history, Clock(op))
    ensures Tracked(Step(s, op, l).state, l, p, history + if IssuesFor(s, op, l, p) then [Clock(op)] else [], Clock(op))
  {
    if IssuesFor(s, op, l, p) {
      IssueRespectsWindow(s, op.request, l, p, history);
      AscendingExtends(history, Clock(op));
    } else {
      OtherStepKeepsMatch(s, op, l, p, history);
      assert history + [] == history;
    }
  }

  lemma {:induction false} HistoryInvariant(start: Store, ops: seq<StoreOp>, l: Limits, p: Principal, now: SystemTime)
    requires ValidLimits(l) && start.state.recent == map[] && ClockNeverBack(ops)
    requires ops != [] ==> Clock(ops[|ops| - 1]) <= now
    ensures Tracked(RunStore(start, ops, l).state, l, p, IssueTimes(start, ops, l, p), now)
  {
    if ops != [] {
      var before, op := ops[..|ops| - 1], ops[|ops| - 1];
      assert before != [] ==> ops[|before| - 1] == before[|before| - 1];
      HistoryInvariant(start, before, l, p, Clock(op));
      StepKeepsTrack(RunStore(start, before, l), op, l, p, IssueTimes(start, before, l, p));
    }
  }

  /** Number of times in the half-open interval from `from`, one window long. */
  function CountInWindow(times: seq<SystemTime>, from: SystemTime, window: Duration): nat {
    if times == [] then 0
    else CountInWindow(times[..|times| - 1], from, window)
         + (if from <= times[|times| - 1] < from + window then 1 else 0)
  }

  lemma {:induction false} KeptAtLeastCounted(times: seq<SystemTime>, from: SystemTime, now: SystemTime, window: Duration)
    requires now < from + window
    ensures CountInWindow(times, from, window) <= |KeepRecent(times, now, window)|
  {
    if times != [] {
      var init, last := times[..|times| - 1], times[|times| - 1];
      KeptAtLeastCounted(init, from, now, window);
      KeepRecentConcat(init, [last], now, window);
      assert times == init + [last];
    }
  }

  lemma {:induction false} CountBounded(history: seq<SystemTime>, from: SystemTime, l: Limits)
    requires Ascending(history) && WindowRespected(history, l)
    ensures CountInWindow(history, from, l.window) <= l.maxIssuances
  {
    if history != [] {
      var n := |history| - 1;
      var init, last := history[..n], history[n];
      if last < from + l.window {
        assert history[..n + 1] == history;
        KeptAtLeastCounted(history, from, last, l.window);
      } else {
        forall i | 0 <= i < |init|
          ensures |KeepRecent(init[..i + 1], init[i], l.window)| <= l.maxIssuances
        {
          assert init[..i + 1] == history[..i + 1];
        }
        CountBounded(init, from, l);
      }
    }
  }

  /** While the clock readings do not go back, no half-open interval of one window length holds more
      successful issuances of a principal than the limit; a run starts at `new` or `open_durable`. */
  lemma SlidingWindow(start: Store, ops: seq<StoreOp>, l: Limits, p: Principal, from: SystemTime)
    requires ValidLimits(l) && start.state.recent == map[] && ClockNeverBack(ops)
    ensures CountInWindow(IssueTimes(start, ops, l, p), from, l.window) <= l.maxIssuances
  {
    HistoryInvariant(start, ops, l, p, if ops == [] then 0 else Clock(ops[|ops| - 1]));
    CountBounded(IssueTimes(start, ops, l, p), from, l);
  }

  // ----- Retry delay -----

  datatype Gate = PrincipalSessions | IssuanceWindow | StoreCapacity

  /** The gate that rejects first, in the order in which admission checks them. */
  function RejectingGate(s: StoreState, p: Principal, l: Limits): Option<Gate> {
    if l.maxPerPrincipal <= |PrincipalKeys(s.sessions, p)| then Some(PrincipalSessions)
    else if l.maxIssuances <= |RecentOf(s.recent, p)| then Some(IssuanceWindow)
    else if l.maxSessions <= |s.sessions| then Some(StoreCapacity)
    else None
  }

  /** Whether the gate would reject a request that arrives at `now`. */
  predicate GateRejects(g: Gate, s: StoreState, p: Principal, now: SystemTime, l: Limits) {
    var pruned := Prune(s, now, l);
    match g
    case PrincipalSessions => l.maxPerPrincipal <= |PrincipalKeys(pruned.sessions, p)|
    case IssuanceWindow => l.maxIssuances <= |RecentOf(pruned.recent, p)|
    case StoreCapacity => l.maxSessions <= |pruned.sessions|
  }

  /** The delay is the ceiling of the distance to `retryAt`, unless that exceeds a `u64`. */
  lemma DelayIsCeiling(retryAt: SystemTime, now: SystemTime, n: nat)
    requires now < retryAt && retryAt - now <= U64_MAX * NANOS_PER_SECOND
    ensures 1 <= RetryAfterDuration(retryAt, now)
    ensures n < RetryAfterDuration(retryAt, now) <==> now + n * NANOS_PER_SECOND < retryAt
  {
  }

  /** Until its first expiry a full set of sessions keeps its size; from then on it is smaller. */
  lemma SessionsShrinkAtFirstExpiry(sessions: map<Digest, Record>, keys: set<Digest>, t: SystemTime, now: SystemTime)
    requires keys != {} && keys <= sessions.Keys && ExpiresFirst(sessions, keys, t)
    ensures |keys * PruneExpired(sessions, now).Keys| < |keys| <==> t <= now
    ensures now < t ==> keys * PruneExpired(sessions, now).Keys == keys
  {
    var kept := keys * PruneExpired(sessions, now).Keys;
    if t <= now {
      var k :| k in keys && sessions[k].metadata.expiresAt == t;
      assert kept <= keys - {k};
      SubsetCardinality(kept, keys - {k});
    } else {
      assert kept == keys;
    }
  }

  lemma {:induction false} DequeShrinksAtFirstEnd(times: seq<SystemTime>, window: Duration, now: SystemTime)
    ensures |KeepRecent(times, now, window)| < |times| <==> exists i :: 0 <= i < |times| && times[i] + window <= now
    ensures (forall i :: 0 <= i < |times| ==> now < times[i] + window) ==> KeepRecent(times, now, window) == times
  {
    if times != [] {
      DequeShrinksAtFirstEnd(times[1..], window, now);
      KeepRecentShrinks(times[1..], now, window);
      if j :| 0 <= j < |times[1..]| && times[1..][j] + window <= now {
        assert times[j + 1] + window <= now;
      }
    }
  }

  /** Every stored session is unexpired and every stored issuance is still inside its window. */
  predicate Fresh(s: StoreState, now: SystemTime, l: Limits) {
    (forall k :: k in s.sessions ==> now < s.sessions[k].metadata.expiresAt)
    && (forall p :: p in s.recent ==> forall i :: 0 <= i < |s.recent[p]| ==> now < s.recent[p][i] + l.window)
  }

  lemma {:induction false} KeptTimesAreFresh(times: seq<SystemTime>, now: SystemTime, window: Duration)
    ensures forall i :: 0 <= i < |KeepRecent(times, now, window)| ==> now < KeepRecent(times, now, window)[i] + window
  {
    if times != [] {
      KeptTimesAreFresh(times[1..], now, window);
    }
  }

  lemma PrunedIsFresh(s: StoreState, now: SystemTime, l: Limits)
    ensures Fresh(Prune(s, now, l), now, l)
  {
    forall p | p in Prune(s, now, l).recent
      ensures forall i :: 0 <= i < |Prune(s, now, l).recent[p]| ==> now < Prune(s, now, l).recent[p][i] + l.window
    {
      KeptTimesAreFresh(s.recent[p], now, l.window);
    }
  }

  /** The first representable window end is the first of all window ends. */
  lemma FirstWindowEndIsFirst(recent: seq<SystemTime>, window: Duration, later: SystemTime)
    requires FirstWindowEnd(recent, window).Some?
    ensures FirstWindowEnd(recent, window).value <= later
        <==> exists i :: 0 <= i < |recent| && recent[i] + window <= later
  {
    var end := FirstWindowEnd(recent, window).value;
    var first := end - window;
    var i :| 0 <= i < |recent| && recent[i] == first;
    assert recent[i] + window == end;
    if j :| 0 <= j < |recent| && recent[j] + window <= later {
      assert recent[j] + window <= MAX_SYSTEM_TIME ==> end <= recent[j] + window;
    }
  }

  /** When no window end is representable, the window gate stays shut for as long as the clock can run. */
  lemma UnrepresentableWindowStaysShut(recent: seq<SystemTime>, l: Limits, later: SystemTime)
    requires l.maxIssuances <= |recent| && FirstWindowEnd(recent, l.window).None? && later <= MAX_SYSTEM_TIME
    ensures l.maxIssuances <= |KeepRecent(recent, later, l.window)|
  {
    DequeShrinksAtFirstEnd(recent, l.window, later);
  }

  /** The gate is shut by exactly its limit, so that one expiry opens it. */
  predicate ShutAt(g: Gate, s: StoreState, p: Principal, l: Limits) {
    match g
    case PrincipalSessions => |PrincipalKeys(s.sessions, p)| == l.maxPerPrincipal
    case IssuanceWindow => |RecentOf(s.recent, p)| == l.maxIssuances && FirstWindowEnd(RecentOf(s.recent, p), l.window).Some?
    case StoreCapacity => |s.sessions| == l.maxSessions
  }

  /** The first moment at which the gate counts less than its limit. */
  function OpensAt(g: Gate, s: StoreState, p: Principal, l: Limits): SystemTime
    requires ValidLimits(l) && ShutAt(g, s, p, l)
  {
    match g
    case PrincipalSessions => FirstExpiry(s.sessions, PrincipalKeys(s.sessions, p))
    case IssuanceWindow => FirstWindowEnd(RecentOf(s.recent, p), l.window).value
    case StoreCapacity =>
      assert |s.sessions.Keys| == |s.sessions|;
      FirstExpiry(s.sessions, s.sessions.Keys)
  }

  lemma GateRejectsUntilItOpens(g: Gate, s: StoreState, p: Principal, later: SystemTime, l: Limits)
    requires ValidLimits(l) && ShutAt(g, s, p, l)
    ensures GateRejects(g, s, p, later, l) <==> later < OpensAt(g, s, p, l)
  {
    var kept := PruneExpired(s.sessions, later);
    var t := OpensAt(g, s, p, l);
    match g {
      case PrincipalSessions =>
        var mine := PrincipalKeys(s.sessions, p);
        SessionsShrinkAtFirstExpiry(s.sessions, mine, t, later);
        assert PrincipalKeys(kept, p) == mine * kept.Keys;
      case IssuanceWindow =>
        var recent := RecentOf(s.recent, p);
        FirstWindowEndIsFirst(recent, l.window, later);
        DequeShrinksAtFirstEnd(recent, l.window, later);
        RecentOfPruned(s.recent, later, l.window, p);
      case StoreCapacity =>
        assert |s.sessions.Keys| == |s.sessions| && |kept.Keys| == |kept|;
        SessionsShrinkAtFirstExpiry(s.sessions, s.sessions.Keys, t, later);
        assert kept.Keys == s.sessions.Keys * kept.Keys;
    }
  }

  lemma RejectionNamesItsGate(s: StoreState, p: Principal, now: SystemTime, l: Limits)
    requires ValidLimits(l) && CapsHold(s, l) && RejectingGate(s, p, l).Some?
    requires RejectingGate(s, p, l).value == IssuanceWindow ==> FirstWindowEnd(RecentOf(s.recent, p), l.window).Some?
    ensures var g := RejectingGate(s, p, l).value;
            ShutAt(g, s, p, l)
            && EnforceAdmission(s, p, now, l) == Some(RateLimited(RetryAfterDuration(OpensAt(g, s, p, l), now)))
  {
    assert |s.sessions.Keys| == |s.sessions|;
  }

  lemma FreshGateOpensLater(g: Gate, s: StoreState, p: Principal, now: SystemTime, l: Limits)
    requires ValidLimits(l) && ShutAt(g, s, p, l) && Fresh(s, now, l)
    requires forall k :: k in s.sessions ==> s.sessions[k].metadata.expiresAt <= MAX_SYSTEM_TIME
    ensures now < OpensAt(g, s, p, l) <= MAX_SYSTEM_TIME
  {
    if g == IssuanceWindow {
      FirstWindowEndIsFirst(RecentOf(s.recent, p), l.window, now);
    }
  }

  /** A window rejection for which no window end is representable. */
  predicate NeverOpens(s: StoreState, p: Principal, l: Limits) {
    RejectingGate(s, p, l) == Some(IssuanceWindow) && FirstWindowEnd(RecentOf(s.recent, p), l.window).None?
  }

  /** A rejected request names a positive number of seconds. If nothing happens in between, the gate that rejected
      it rejects after fewer seconds and lets it pass from that number on, unless it never opens again. The clock
      must be close enough to the last representable time for the delay to fit a `u64`. */
  lemma RetryAfterIsExact(s: StoreState, p: Principal, now: SystemTime, l: Limits, n: nat)
    requires ValidLimits(l) && CapsHold(s, l)
    requires RejectingGate(Prune(s, now, l), p, l).Some?
    requires MAX_SYSTEM_TIME - now <= U64_MAX * NANOS_PER_SECOND
    requires forall k :: k in s.sessions ==> s.sessions[k].metadata.expiresAt <= MAX_SYSTEM_TIME
    ensures var pruned := Prune(s, now, l);
            var rejection, later := EnforceAdmission(pruned, p, now, l), now + n * NANOS_PER_SECOND;
            rejection.Some? && rejection.value.RateLimited? && 1 <= rejection.value.retryAfterSeconds
            && (later <= MAX_SYSTEM_TIME ==>
                  (GateRejects(RejectingGate(pruned, p, l).value, pruned, p, later, l)
                   <==> NeverOpens(pruned, p, l) || n < rejection.value.retryAfterSeconds))
  {
    var pruned := Prune(s, now, l);
    PrunedIsFresh(s, now, l);
    PruneKeepsCaps(s, now, l);
    if NeverOpens(pruned, p, l) {
      NeverOpensAgain(pruned, p, now + n * NANOS_PER_SECOND, l);
    } else {
      OpensAfterDelay(pruned, p, now, l, n);
    }
  }

  lemma NeverOpensAgain(s: StoreState, p: Principal, later: SystemTime, l: Limits)
    requires NeverOpens(s, p, l)
    ensures later <= MAX_SYSTEM_TIME ==> GateRejects(IssuanceWindow, s, p, later, l)
  {
    if later <= MAX_SYSTEM_TIME {
      UnrepresentableWindowStaysShut(RecentOf(s.recent, p), l, later);
      RecentOfPruned(s.recent, later, l.window, p);
    }
  }

  lemma OpensAfterDelay(s: StoreState, p: Principal, now: SystemTime, l: Limits, n: nat)
    requires ValidLimits(l) && CapsHold(s, l) && Fresh(s, now, l) && RejectingGate(s, p, l).Some? && !NeverOpens(s, p, l)
    requires MAX_SYSTEM_TIME - now <= U64_MAX * NANOS_PER_SECOND
    requires forall k :: k in s.sessions ==> s.sessions[k].metadata.expiresAt <= MAX_SYSTEM_TIME
    ensures var rejection := EnforceAdmission(s, p, now, l);
            rejection.Some? && rejection.value.RateLimited? && 1 <= rejection.value.retryAfterSeconds
            && (GateRejects(RejectingGate(s, p, l).value, s, p, now + n * NANOS_PER_SECOND, l)
                <==> n < rejection.value.retryAfterSeconds)
  {
    RejectionNamesItsGate(s, p, now, l);
    var g := RejectingGate(s, p, l).value;
    FreshGateOpensLater(g, s, p, now, l);
    GateRejectsUntilItOpens(g, s, p, now + n * NANOS_PER_SECOND, l);
    DelayIsCeiling(OpensAt(g, s, p, l), now, n);
  }
}
