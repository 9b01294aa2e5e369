/** The store and the never-pruned log under any clock: exactly when the two agree. What counts is the latest reading
    at which a session's expiry was looked at since it was issued. */
module SessionClock {
  import opened Wrappers
  import opened SessionModel
  import opened SessionAdmission
  import opened SessionKeys
  import opened SessionSystem
  import opened SessionRefinement
  import opened SessionTheorems

  // ----- The latest look -----

  /** The latest clock reading at which the expiry was compared in memory, and the latest second at which it was
      compared among the rows. */
  datatype Looks = Looks(memory: Option<SystemTime>, rows: Option<int>)

  const NOT_LOOKED_AT := Looks(None, None)

  function Latest(before: Option<int>, reading: int): Option<int> {
    Some(if before.Some? && reading < before.value then before.value else reading)
  }

  /** A session with this expiry has been kept by every look. */
  predicate Spares(look: Option<int>, expiry: int) {
    look.Some? ==> look.value < expiry
  }

  /** Starting compares the rows: when a key is to be created, and when the store is opened. The memory is then as
      old as the rows, in whole seconds. */
  function LookByStart(s: System, e: Event, looks: Looks): Looks
    requires e.StartServer? && s.server.Stopped?
  {
    var creating := if CreatesKey(s, e) then Latest(looks.rows, UnixSeconds(e.keyNow)) else looks.rows;
    var key := LoadOrCreateKey(s.rows, s.nativeKey, e.keyNow, e.generated, e.io).2;
    var opening := if key.Success? && e.deleteOk then Latest(creating, UnixSeconds(e.now)) else creating;
    Looks(match opening case None => None case Some(second) => Some(second * NANOS_PER_SECOND), opening)
  }

  predicate CreatesKey(s: System, e: Event)
    requires e.StartServer?
  {
    e.io.identityOk && e.io.loadOk && s.nativeKey.None? && 0 <= e.keyNow && e.io.deleteOk
  }

  /** An issue request with a valid lifetime looks at every session, and at every row if the deletion succeeds;
      counting looks at every session, and verifying at one. Issuing a session starts anew. */
  function LookByRequest(s: System, op: StoreOp, key: Digest, looks: Looks): Looks
    requires s.server.Running?
  {
    match op
    case IssueOp(q) =>
      if q.ttl == 0 || CheckedAdd(q.now, q.ttl).None? then looks
      else if Issue(StoreOf(s), q, PRODUCTION).1 == Success(key) then NOT_LOOKED_AT
      else Looks(Latest(looks.memory, q.now), if q.deleteOk then Latest(looks.rows, UnixSeconds(q.now)) else looks.rows)
    case VerifyOp(k, now) => if k == key then looks.(memory := Latest(looks.memory, now)) else looks
    case RevokeOp(_, _, _) => looks
    case CountOp(now) => looks.(memory := Latest(looks.memory, now))
  }

  function LookBy(s: System, e: Event, key: Digest, looks: Looks): Looks {
    match e
    case Request(op) => if s.server.Running? then LookByRequest(s, op, key, looks) else looks
    case StartServer(_, _, _, _, _, _) => if s.server.Stopped? then LookByStart(s, e, looks) else looks
    case _ => looks
  }

  function LooksAt(events: seq<Event>, key: Digest): Looks {
    if events == [] then NOT_LOOKED_AT
    else
      var before, e := events[..|events| - 1], events[|events| - 1];
      LookBy(Run(before), e, key, LooksAt(before, key))
  }

  // ----- The invariant -----

  /** The row is there exactly if the session is live and every look has spared it. */
  predicate RowIsExact(rows: Rows, log: seq<LogEntry>, key: Digest, look: Option<int>) {
    var live := Live(log, key);
    (key in rows <==> live.Some? && Spares(look, UnixSeconds(live.value.metadata.expiresAt)))
    && (key in rows ==> RowKeeps(rows[key], key, live.value))
  }

  predicate SessionIsExact(sessions: map<Digest, Record>, log: seq<LogEntry>, key: Digest, look: Option<SystemTime>) {
    var live := Live(log, key);
    (key in sessions <==> live.Some? && Spares(look, live.value.metadata.expiresAt))
    && (key in sessions ==> sessions[key] == live.value)
  }

  predicate IsExact(s: System, log: seq<LogEntry>, key: Digest, looks: Looks) {
    RowIsExact(s.rows, log, key, looks.rows)
    && (s.server.Running? ==> SessionIsExact(s.server.state.sessions, log, key, looks.memory))
  }

  lemma SweepingRowsIsALook(rows: Rows, log: seq<LogEntry>, key: Digest, look: Option<int>, second: int)
    requires RowIsExact(rows, log, key, look)
    ensures RowIsExact(DeleteExpiredRows(rows, second), log, key, Latest(look, second))
  {
  }

  lemma PruningIsALook(sessions: map<Digest, Record>, log: seq<LogEntry>, key: Digest, look: Option<SystemTime>, now: SystemTime)
    requires SessionIsExact(sessions, log, key, look)
    ensures SessionIsExact(PruneExpired(sessions, now), log, key, Latest(look, now))
  {
  }

  // ----- Requests -----

  lemma IssueOutcomeExactly(s: System, q: IssueRequest)
    requires s.server.Running?
    ensures var (after, r) := Issue(StoreOf(s), q, PRODUCTION);
            var pruned := PruneExpired(s.server.state.sessions, q.now);
            var swept := if q.deleteOk then DeleteExpiredRows(s.rows, UnixSeconds(q.now)) else s.rows;
            after.durable.Some?
            && if q.ttl == 0 || CheckedAdd(q.now, q.ttl).None? then after == StoreOf(s) && r.Failure?
               else if r.Success? then
                 after.state.sessions == pruned[r.value := NewRecord(q)]
                 && after.durable.value.rows == swept[r.value := ProtectedRow(r.value, NewRecord(q), s.server.secret, q.nonce)]
               else after.state.sessions == pruned && after.durable.value.rows == swept
  {
  }

  lemma IssueIsExact(s: System, log: seq<LogEntry>, key: Digest, looks: Looks, q: IssueRequest)
    requires IsExact(s, log, key, looks) && s.server.Running?
    ensures IsExact(Apply(s, Request(IssueOp(q))), log + Entries(s, Request(IssueOp(q))), key,
                    LookByRequest(s, IssueOp(q), key, looks))
  {
    var r := Issue(StoreOf(s), q, PRODUCTION).1;
    IssueOutcomeExactly(s, q);
    SweepingRowsIsALook(s.rows, log, key, looks.rows, UnixSeconds(q.now));
    PruningIsALook(s.server.state.sessions, log, key, looks.memory, q.now);
    assert log + [] == log;
    if r.Success? {
      LiveAfter(log, Issued(r.value, NewRecord(q)), key);
    }
  }

  lemma RequestIsExact(s: System, log: seq<LogEntry>, key: Digest, looks: Looks, op: StoreOp)
    requires IsExact(s, log, key, looks) && s.server.Running?
    ensures IsExact(Apply(s, Request(op)), log + Entries(s, Request(op)), key, LookByRequest(s, op, key, looks))
  {
    assert log + [] == log;
    match op {
      case IssueOp(q) => IssueIsExact(s, log, key, looks, q);
      case VerifyOp(_, _) =>
      case RevokeOp(k, _, _) => LiveAfter(log, Revoked(k), key);
      case CountOp(now) => PruningIsALook(s.server.state.sessions, log, key, looks.memory, now);
    }
  }

  // ----- Starts -----

  lemma KeyRows(s: System, e: Event)
    requires e.StartServer?
    ensures var (rows, nativeKey, r) := LoadOrCreateKey(s.rows, s.nativeKey, e.keyNow, e.generated, e.io);
            rows == (if CreatesKey(s, e) then DeleteExpiredRows(s.rows, UnixSeconds(e.keyNow)) else s.rows)
            && (r.Success? ==> |r.value| == MANAGED_KEY_BYTES)
  {
  }

  lemma LoadedIsRestored(rows: Rows, key: Digest, secret: Secret, second: int)
    requires LoadSessions(rows, secret, second).Success? && key in rows && second < rows[key].expiresSeconds
    ensures RestoreSession(key, rows[key], secret).Success?
    ensures var loaded := LoadSessions(rows, secret, second).value;
            key in loaded && loaded[key] == RestoreSession(key, rows[key], secret).value
  {
    var active := DeleteExpiredRows(rows, second);
    assert key in active && active[key] == rows[key];
  }

  /** Restoring what is left of the rows, at the second of the last look or later. */
  lemma RestoredIsExact(rows: Rows, log: seq<LogEntry>, key: Digest, look: Option<int>, secret: Secret, now: SystemTime)
    requires RowIsExact(rows, log, key, look) && look.Some? && UnixSeconds(now) <= look.value
    requires LoadSessions(rows, secret, UnixSeconds(now)).Success?
    ensures var longer := log + [Restarted(now)];
            RowIsExact(rows, longer, key, look)
            && SessionIsExact(LoadSessions(rows, secret, UnixSeconds(now)).value, longer, key, Some(look.value * NANOS_PER_SECOND))
  {
    LiveAfter(log, Restarted(now), key);
    if key in rows {
      var r := Live(log, key).value;
      LoadedIsRestored(rows, key, secret, UnixSeconds(now));
      RestoreKept(rows[key], key, r, secret);
      SecondsSurviveRoundTrip(r.metadata.expiresAt);
    } else if Live(log, key).Some? {
      SecondsSurviveRoundTrip(Live(log, key).value.metadata.expiresAt);
    }
  }

  lemma StartIsExact(s: System, log: seq<LogEntry>, key: Digest, looks: Looks, e: Event)
    requires IsExact(s, log, key, looks) && e.StartServer? && s.server.Stopped?
    ensures IsExact(Apply(s, e), log + Entries(s, e), key, LookByStart(s, e, looks))
  {
    assert log + [] == log;
    KeyRows(s, e);
    SweepingRowsIsALook(s.rows, log, key, looks.rows, UnixSeconds(e.keyNow));
    var (rows, nativeKey, r) := LoadOrCreateKey(s.rows, s.nativeKey, e.keyNow, e.generated, e.io);
    var look := if CreatesKey(s, e) then Latest(looks.rows, UnixSeconds(e.keyNow)) else looks.rows;
    if r.Success? {
      SweepingRowsIsALook(rows, log, key, look, UnixSeconds(e.now));
      var swept := DeleteExpiredRows(rows, UnixSeconds(e.now));
      if Start(s, e).server.Running? {
        RestoredIsExact(swept, log, key, Latest(look, UnixSeconds(e.now)), r.value, e.now);
      }
    }
  }

  // ----- Runs -----

  lemma {:induction false} EveryRunIsExact(events: seq<Event>, key: Digest)
    ensures IsExact(Run(events), LogOf(events), key, LooksAt(events, key))
  {
    if events != [] {
      var before, e := events[..|events| - 1], events[|events| - 1];
      var s, log, looks := Run(before), LogOf(before), LooksAt(before, key);
      EveryRunIsExact(before, key);
      assert log + [] == log;
      match e {
        case Request(op) => if s.server.Running? { RequestIsExact(s, log, key, looks, op); }
        case StartServer(_, _, _, _, _, _) => if s.server.Stopped? { StartIsExact(s, log, key, looks, e); }
        case StopServer =>
        case Rotate(_, _) => LiveAfter(log, Invalidated, key);
        case LoseKey =>
      }
    }
  }

  /** A session that should answer has been spared by every look so far. */
  predicate AnswerIsSpared(events: seq<Event>, key: Digest, now: SystemTime) {
    var expected := LogAnswer(LogOf(events), key, now);
    expected.Some? ==> Spares(LooksAt(events, key).memory, expected.value.metadata.expiresAt)
  }

  /** Over every run, whatever the clock reads: `verify` answers as the never-pruned log exactly if no look since the
      issuance came at or after an expiry that now lies ahead. */
  lemma VerifyAgreesExactlyIfSpared(events: seq<Event>, key: Digest, now: SystemTime)
    requires Run(events).server.Running?
    ensures Verify(StoreOf(Run(events)), key, now).1 == LogAnswer(LogOf(events), key, now) <==> AnswerIsSpared(events, key, now)
    ensures Verify(StoreOf(Run(events)), key, now).1.Some? ==>
              Verify(StoreOf(Run(events)), key, now).1 == LogAnswer(LogOf(events), key, now)
  {
    EveryRunIsExact(events, key);
  }

  /** The same condition decides whether `revoke` reports what the log says. */
  lemma RevokeAgreesExactlyIfSpared(events: seq<Event>, key: Digest, now: SystemTime)
    requires Run(events).server.Running?
    ensures Revoke(StoreOf(Run(events)), key, now, true).1 == Success(LogAnswer(LogOf(events), key, now).Some?)
            <==> AnswerIsSpared(events, key, now)
  {
    EveryRunIsExact(events, key);
  }

  /** A clock that never goes back spares every session that should answer. */
  lemma NeverBackSpares(events: seq<Event>, start: SystemTime, key: Digest, now: SystemTime)
    requires NeverBack(events, start) && LastClock(events, start) <= now && Run(events).server.Running?
    ensures AnswerIsSpared(events, key, now)
  {
    VerifyAnswersAsTheLog(events, start, key, now);
    VerifyAgreesExactlyIfSpared(events, key, now);
  }

  // ----- Limits across restarts -----

  lemma RestoredPrincipal(key: Digest, row: Row, secret: Secret)
    requires RestoreSession(key, row, secret).Success?
    ensures PrincipalOf(RestoreSession(key, row, secret).value.metadata) == PrincipalOfRow(row)
  {
  }

  /** Whatever the clock reads, a store that opens holds at most the total limit, and it keeps all limits exactly if
      the rows that it loads hold no principal's sessions beyond the limit. */
  lemma OpeningKeepsCapsIff(rows: Rows, secret: Secret, now: SystemTime, deleteOk: bool, loadOk: bool)
    requires OpenDurable(rows, secret, now, deleteOk, loadOk).1.Success?
    ensures var sessions := OpenDurable(rows, secret, now, deleteOk, loadOk).1.value;
            |sessions| <= PRODUCTION.maxSessions
            && (CapsHold(StoreState(sessions, map[]), PRODUCTION) <==>
                forall p :: |LoadableKeysOf(rows, now, p)| <= PRODUCTION.maxPerPrincipal)
  {
    var sessions := OpenDurable(rows, secret, now, deleteOk, loadOk).1.value;
    var swept := DeleteExpiredRows(rows, UnixSeconds(now));
    forall k | k in sessions ensures PrincipalOf(sessions[k].metadata) == PrincipalOfRow(rows[k]) {
      LoadedIsRestored(swept, k, secret, UnixSeconds(now));
      RestoredPrincipal(k, swept[k], secret);
    }
    forall p ensures PrincipalKeys(sessions, p) == LoadableKeysOf(rows, now, p) {
    }
  }
}
