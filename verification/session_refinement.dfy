/** The pruned, restarted, whole-second store refines the never-pruned log; and the stored key and
    the sealed rows never part. */
module SessionRefinement {
  import opened Wrappers
  import opened SessionModel
  import opened SessionAdmission
  import opened SessionKeys
  import opened SessionSystem

  // ----- The log -----

  lemma LiveAfter(log: seq<LogEntry>, e: LogEntry, key: Digest)
    ensures Live(log + [e], key)
         == match e
            case Issued(k, r) => if k == key then Some(r) else Live(log, key)
            case Revoked(k) => if k == key then None else Live(log, key)
            case Restarted(now) =>
              if Live(log, key).Some? && UnixSeconds(now) < UnixSeconds(Live(log, key).value.metadata.expiresAt)
              then Some(Truncate(Live(log, key).value)) else None
            case Invalidated => None
  {
    assert (log + [e])[..|log|] == log;
  }

  /** The live session of `key` outlives the current second. */
  predicate OutlivesSecond(log: seq<LogEntry>, key: Digest, now: SystemTime) {
    Live(log, key).Some? && UnixSeconds(now) < UnixSeconds(Live(log, key).value.metadata.expiresAt)
  }

  // ----- Invariants -----

  /** A row holds the record's data in whole seconds, and its token sealed over exactly these data. */
  predicate RowKeeps(row: Row, key: Digest, r: Record) {
    var m := r.metadata;
    row.providerId == m.providerId && row.login == m.login && row.stableId == m.stableId
    && row.grantedScopes == m.grantedScopes
    && row.issuedSeconds == UnixSeconds(m.issuedAt) && row.expiresSeconds == UnixSeconds(m.expiresAt)
    && row.ciphertext.Some? == row.nonce.Some? == r.pat.Some?
    && (r.pat.Some? ==>
          |row.nonce.value| == NONCE_LEN && row.ciphertext.value.nonce == row.nonce.value
          && row.ciphertext.value.data == AssociatedDataOf(key, m) && row.ciphertext.value.plaintext == r.pat.value)
  }

  /** Among the rows and the live sessions that outlive the current second, the two are the same. */
  ghost predicate RowsMirrorLog(rows: Rows, log: seq<LogEntry>, now: SystemTime) {
    (forall k: Digest :: k in rows && UnixSeconds(now) < rows[k].expiresSeconds <==> OutlivesSecond(log, k, now))
    && (forall k: Digest :: OutlivesSecond(log, k, now) ==> RowKeeps(rows[k], k, Live(log, k).value))
  }

  /** The map holds live sessions only, and misses only expired ones. */
  ghost predicate SessionsMirrorLog(sessions: map<Digest, Record>, log: seq<LogEntry>, now: SystemTime) {
    (forall k :: k in sessions ==> Live(log, k) == Some(sessions[k]))
    && (forall k: Digest :: Live(log, k).Some? && k !in sessions ==> Live(log, k).value.metadata.expiresAt <= now)
  }

  ghost predicate LogInPast(log: seq<LogEntry>, now: SystemTime) {
    forall k: Digest :: Live(log, k).Some? ==> UnixSeconds(Live(log, k).value.metadata.issuedAt) <= UnixSeconds(now)
  }

  function PrincipalOfRow(row: Row): Principal {
    Principal(row.providerId, match row.stableId case Some(id) => StableId(id) case None => Login(row.login))
  }

  function LoadableKeys(rows: Rows, now: SystemTime): set<Digest> {
    set k | k in rows && UnixSeconds(now) < rows[k].expiresSeconds
  }

  function LoadableKeysOf(rows: Rows, now: SystemTime, p: Principal): set<Digest> {
    set k | k in rows && UnixSeconds(now) < rows[k].expiresSeconds && PrincipalOfRow(rows[k]) == p
  }

  /** A restart would stay within the caps. */
  ghost predicate LoadableWithinCaps(rows: Rows, now: SystemTime, l: Limits) {
    |LoadableKeys(rows, now)| <= l.maxSessions
    && forall p :: |LoadableKeysOf(rows, now, p)| <= l.maxPerPrincipal
  }

  ghost predicate Mirrors(s: System, log: seq<LogEntry>, now: SystemTime) {
    RowsMirrorLog(s.rows, log, now) && LogInPast(log, now)
    && match s.server
       case Running(state, _) => SessionsMirrorLog(state.sessions, log, now) && CapsHold(state, PRODUCTION)
       case Stopped => LoadableWithinCaps(s.rows, now, PRODUCTION)
  }

  /** Time alone keeps the rows and the log in step. */
  lemma TimePasses(s: System, log: seq<LogEntry>, now: SystemTime, later: SystemTime)
    requires Mirrors(s, log, now) && now <= later
    ensures Mirrors(s, log, later)
  {
    UnixSecondsMonotone(now, later);
    forall k: Digest
      ensures k in s.rows && UnixSeconds(later) < s.rows[k].expiresSeconds <==> OutlivesSecond(log, k, later)
      ensures OutlivesSecond(log, k, later) ==> RowKeeps(s.rows[k], k, Live(log, k).value)
    {
      assert k in s.rows && UnixSeconds(now) < s.rows[k].expiresSeconds <==> OutlivesSecond(log, k, now);
      assert OutlivesSecond(log, k, now) ==> RowKeeps(s.rows[k], k, Live(log, k).value);
    }
    if s.server.Stopped? {
      SubsetCardinality(LoadableKeys(s.rows, later), LoadableKeys(s.rows, now));
      forall p ensures |LoadableKeysOf(s.rows, later, p)| <= PRODUCTION.maxPerPrincipal {
        SubsetCardinality(LoadableKeysOf(s.rows, later, p), LoadableKeysOf(s.rows, now, p));
      }
    }
  }

  // ----- Requests -----

  lemma DeletingExpiredKeepsMirror(rows: Rows, log: seq<LogEntry>, at: SystemTime, now: SystemTime)
    requires RowsMirrorLog(rows, log, now) && at <= now
    ensures RowsMirrorLog(DeleteExpiredRows(rows, UnixSeconds(at)), log, now)
  {
    UnixSecondsMonotone(at, now);
    var swept := DeleteExpiredRows(rows, UnixSeconds(at));
    forall k: Digest
      ensures k in swept && UnixSeconds(now) < swept[k].expiresSeconds <==> OutlivesSecond(log, k, now)
      ensures OutlivesSecond(log, k, now) ==> RowKeeps(swept[k], k, Live(log, k).value)
    {
      assert k in rows && UnixSeconds(now) < rows[k].expiresSeconds <==> OutlivesSecond(log, k, now);
      assert OutlivesSecond(log, k, now) ==> RowKeeps(rows[k], k, Live(log, k).value);
    }
  }

  lemma PruningKeepsMirror(sessions: map<Digest, Record>, log: seq<LogEntry>, now: SystemTime)
    requires SessionsMirrorLog(sessions, log, now)
    ensures SessionsMirrorLog(PruneExpired(sessions, now), log, now)
  {
  }

  lemma RevokingKeepsMirror(rows: Rows, sessions: map<Digest, Record>, log: seq<LogEntry>, key: Digest, now: SystemTime)
    requires RowsMirrorLog(rows, log, now) && SessionsMirrorLog(sessions, log, now) && LogInPast(log, now)
    ensures RowsMirrorLog(rows - {key}, log + [Revoked(key)], now)
    ensures SessionsMirrorLog(sessions - {key}, log + [Revoked(key)], now)
    ensures LogInPast(log + [Revoked(key)], now)
  {
    var longer := log + [Revoked(key)];
    forall k: Digest ensures Live(longer, k) == if k == key then None else Live(log, k) {
      LiveAfter(log, Revoked(key), k);
    }
    forall k: Digest
      ensures k in rows - {key} && UnixSeconds(now) < (rows - {key})[k].expiresSeconds <==> OutlivesSecond(longer, k, now)
      ensures OutlivesSecond(longer, k, now) ==> RowKeeps((rows - {key})[k], k, Live(longer, k).value)
    {
      assert k in rows && UnixSeconds(now) < rows[k].expiresSeconds <==> OutlivesSecond(log, k, now);
      assert OutlivesSecond(log, k, now) ==> RowKeeps(rows[k], k, Live(log, k).value);
    }
  }

  lemma IssuingKeepsMirror(
    rows: Rows, sessions: map<Digest, Record>, log: seq<LogEntry>, key: Digest, r: Record, secret: Secret, nonce: Nonce,
    now: SystemTime)
    requires RowsMirrorLog(rows, log, now) && SessionsMirrorLog(sessions, log, now) && LogInPast(log, now)
    requires r.metadata.issuedAt == now
    ensures RowsMirrorLog(rows[key := ProtectedRow(key, r, secret, nonce)], log + [Issued(key, r)], now)
    ensures SessionsMirrorLog(sessions[key := r], log + [Issued(key, r)], now)
    ensures LogInPast(log + [Issued(key, r)], now)
  {
    var longer := log + [Issued(key, r)];
    var after := rows[key := ProtectedRow(key, r, secret, nonce)];
    forall k: Digest ensures Live(longer, k) == if k == key then Some(r) else Live(log, k) {
      LiveAfter(log, Issued(key, r), k);
    }
    forall k: Digest
      ensures k in after && UnixSeconds(now) < after[k].expiresSeconds <==> OutlivesSecond(longer, k, now)
      ensures OutlivesSecond(longer, k, now) ==> RowKeeps(after[k], k, Live(longer, k).value)
    {
      assert k in rows && UnixSeconds(now) < rows[k].expiresSeconds <==> OutlivesSecond(log, k, now);
      assert OutlivesSecond(log, k, now) ==> RowKeeps(rows[k], k, Live(log, k).value);
    }
  }

  lemma IssueOutcome(s: Store, q: IssueRequest, l: Limits)
    requires s.durable.Some?
    ensures var (after, r) := Issue(s, q, l);
            var Durable(rows, secret) := s.durable.value;
            var pruned := PruneExpired(s.state.sessions, q.now);
            var swept := DeleteExpiredRows(rows, UnixSeconds(q.now));
            after.durable.Some? && after.durable.value.secret == secret
            && (r.Success? ==>
                  after.state.sessions == pruned[r.value := NewRecord(q)]
                  && after.durable.value.rows == swept[r.value := ProtectedRow(r.value, NewRecord(q), secret, q.nonce)])
            && (r.Failure? ==>
                  (after.state.sessions == s.state.sessions || after.state.sessions == pruned)
                  && (after.durable.value.rows == rows || after.durable.value.rows == swept))
  {
  }

  lemma IssueKeepsMirrors(s: System, log: seq<LogEntry>, q: IssueRequest)
    requires Mirrors(s, log, q.now) && s.server.Running?
    ensures var (after, r) := Issue(StoreOf(s), q, PRODUCTION);
            var longer := if r.Success? then log + [Issued(r.value, NewRecord(q))] else log;
            after.durable.Some?
            && RowsMirrorLog(after.durable.value.rows, longer, q.now) && LogInPast(longer, q.now)
            && SessionsMirrorLog(after.state.sessions, longer, q.now)
  {
    var sessions := s.server.state.sessions;
    var swept := DeleteExpiredRows(s.rows, UnixSeconds(q.now));
    IssueOutcome(StoreOf(s), q, PRODUCTION);
    PruningKeepsMirror(sessions, log, q.now);
    DeletingExpiredKeepsMirror(s.rows, log, q.now, q.now);
    var r := Issue(StoreOf(s), q, PRODUCTION).1;
    if r.Success? {
      IssuingKeepsMirror(swept, PruneExpired(sessions, q.now), log, r.value, NewRecord(q), s.server.secret, q.nonce, q.now);
    }
  }

  lemma RequestKeepsMirrors(s: System, log: seq<LogEntry>, op: StoreOp)
    requires Mirrors(s, log, Clock(op)) && s.server.Running?
    ensures Mirrors(Apply(s, Request(op)), log + Entries(s, Request(op)), Clock(op))
  {
    StepKeepsCaps(StoreOf(s), op, PRODUCTION);
    assert log + [] == log;
    match op {
      case IssueOp(q) => IssueKeepsMirrors(s, log, q);
      case VerifyOp(key, now) =>
      case RevokeOp(key, now, ok) =>
        RevokingKeepsMirror(s.rows, s.server.state.sessions, log, key, now);
      case CountOp(now) => PruningKeepsMirror(s.server.state.sessions, log, now);
    }
  }

  // ----- Restarts -----

  /** A kept row restores to the truncated record: always when the key fits, and to nothing else ever. */
  lemma RestoreKept(row: Row, key: Digest, r: Record, secret: Secret)
    requires RowKeeps(row, key, r) && row.issuedSeconds < row.expiresSeconds
    ensures RestoreSession(key, row, secret).Success? ==> RestoreSession(key, row, secret) == Success(Truncate(r))
    ensures row.ciphertext.None? || row.ciphertext.value.secret == secret
            ==> RestoreSession(key, row, secret) == Success(Truncate(r))
    ensures RowKeeps(row, key, Truncate(r))
  {
    SecondsSurviveRoundTrip(r.metadata.issuedAt);
    SecondsSurviveRoundTrip(r.metadata.expiresAt);
  }

  /** What a restart at `now` should leave of the sessions. */
  ghost predicate IsRestored(sessions: map<Digest, Record>, log: seq<LogEntry>, now: SystemTime) {
    forall k: Digest :: (k in sessions <==> OutlivesSecond(log, k, now))
                        && (k in sessions ==> sessions[k] == Truncate(Live(log, k).value))
  }

  lemma LoadingRestores(rows: Rows, log: seq<LogEntry>, now: SystemTime, secret: Secret)
    requires RowsMirrorLog(rows, log, now) && LogInPast(log, now)
    ensures LoadSessions(rows, secret, UnixSeconds(now)).Success?
            ==> IsRestored(LoadSessions(rows, secret, UnixSeconds(now)).value, log, now)
    ensures (forall k :: k in rows && rows[k].ciphertext.Some? ==> rows[k].ciphertext.value.secret == secret)
            ==> LoadSessions(rows, secret, UnixSeconds(now)).Success?
  {
    forall k: Digest | k in rows && UnixSeconds(now) < rows[k].expiresSeconds
      ensures OutlivesSecond(log, k, now)
      ensures RestoreSession(k, rows[k], secret).Success?
              ==> RestoreSession(k, rows[k], secret) == Success(Truncate(Live(log, k).value))
      ensures rows[k].ciphertext.None? || rows[k].ciphertext.value.secret == secret
              ==> RestoreSession(k, rows[k], secret).Success?
    {
      RestoreKept(rows[k], k, Live(log, k).value, secret);
    }
  }

  lemma RestartKeepsMirror(rows: Rows, sessions: map<Digest, Record>, log: seq<LogEntry>, now: SystemTime)
    requires RowsMirrorLog(rows, log, now) && LogInPast(log, now) && IsRestored(sessions, log, now)
    ensures RowsMirrorLog(rows, log + [Restarted(now)], now)
    ensures SessionsMirrorLog(sessions, log + [Restarted(now)], now)
    ensures LogInPast(log + [Restarted(now)], now)
  {
    var longer := log + [Restarted(now)];
    forall k: Digest
      ensures Live(longer, k) == if OutlivesSecond(log, k, now) then Some(Truncate(Live(log, k).value)) else None
      ensures k in rows && UnixSeconds(now) < rows[k].expiresSeconds <==> OutlivesSecond(longer, k, now)
      ensures OutlivesSecond(longer, k, now) ==> RowKeeps(rows[k], k, Live(longer, k).value)
      ensures Live(longer, k).Some? ==> UnixSeconds(Live(longer, k).value.metadata.issuedAt) <= UnixSeconds(now)
    {
      LiveAfter(log, Restarted(now), k);
      assert k in rows && UnixSeconds(now) < rows[k].expiresSeconds <==> OutlivesSecond(log, k, now);
      if OutlivesSecond(log, k, now) {
        var r := Live(log, k).value;
        assert RowKeeps(rows[k], k, r);
        RestoreKept(rows[k], k, r, []);
        SecondsSurviveRoundTrip(r.metadata.issuedAt);
        SecondsSurviveRoundTrip(r.metadata.expiresAt);
      }
    }
  }

  lemma RestoredWithinCaps(rows: Rows, sessions: map<Digest, Record>, log: seq<LogEntry>, now: SystemTime, l: Limits)
    requires RowsMirrorLog(rows, log, now) && IsRestored(sessions, log, now) && LoadableWithinCaps(rows, now, l)
    ensures CapsHold(StoreState(sessions, map[]), l)
  {
    assert sessions.Keys == LoadableKeys(rows, now) && |sessions| == |sessions.Keys|;
    forall p ensures |PrincipalKeys(sessions, p)| <= l.maxPerPrincipal {
      forall k | k in sessions ensures PrincipalOf(sessions[k].metadata) == PrincipalOfRow(rows[k]) {
        assert RowKeeps(rows[k], k, Live(log, k).value);
      }
      assert PrincipalKeys(sessions, p) == LoadableKeysOf(rows, now, p);
    }
  }

  lemma DeletingExpiredKeepsLoadable(rows: Rows, at: SystemTime, now: SystemTime, l: Limits)
    requires LoadableWithinCaps(rows, now, l) && at <= now
    ensures LoadableWithinCaps(DeleteExpiredRows(rows, UnixSeconds(at)), now, l)
  {
    UnixSecondsMonotone(at, now);
    var swept := DeleteExpiredRows(rows, UnixSeconds(at));
    assert LoadableKeys(swept, now) == LoadableKeys(rows, now);
    forall p ensures LoadableKeysOf(swept, now, p) == LoadableKeysOf(rows, now, p) {
    }
  }

  lemma OpeningKeepsMirrors(rows: Rows, nativeKey: Option<Secret>, secret: Secret, log: seq<LogEntry>, e: Event)
    requires e.StartServer?
    requires Mirrors(System(rows, nativeKey, Stopped), log, e.now)
    ensures var (left, loaded) := OpenDurable(rows, secret, e.now, e.deleteOk, e.loadOk);
            match loaded
            case Failure(_) => Mirrors(System(left, nativeKey, Stopped), log, e.now)
            case Success(sessions) =>
              IsRestored(sessions, log, e.now)
              && Mirrors(System(left, nativeKey, Running(StoreState(sessions, map[]), secret)), log + [Restarted(e.now)], e.now)
  {
    var swept := DeleteExpiredRows(rows, UnixSeconds(e.now));
    DeletingExpiredKeepsMirror(rows, log, e.now, e.now);
    DeletingExpiredKeepsLoadable(rows, e.now, e.now, PRODUCTION);
    LoadingRestores(swept, log, e.now, secret);
    var (left, loaded) := OpenDurable(rows, secret, e.now, e.deleteOk, e.loadOk);
    if loaded.Success? {
      RestartKeepsMirror(swept, loaded.value, log, e.now);
      RestoredWithinCaps(swept, loaded.value, log, e.now, PRODUCTION);
    }
  }

  lemma LoadingKeyKeepsMirrors(s: System, log: seq<LogEntry>, keyNow: SystemTime, now: SystemTime, generated: ManagedKey, io: KeyIo)
    requires keyNow <= now && s.server.Stopped? && Mirrors(s, log, now)
    ensures var (rows, nativeKey, _) := LoadOrCreateKey(s.rows, s.nativeKey, keyNow, generated, io);
            Mirrors(System(rows, nativeKey, Stopped), log, now)
  {
    DeletingExpiredKeepsMirror(s.rows, log, keyNow, now);
    DeletingExpiredKeepsLoadable(s.rows, keyNow, now, PRODUCTION);
  }

  lemma StartKeepsMirrors(s: System, log: seq<LogEntry>, e: Event)
    requires e.StartServer? && e.keyNow <= e.now && s.server.Stopped? && Mirrors(s, log, e.now)
    ensures Mirrors(Start(s, e), log + Entries(s, e), e.now)
  {
    LoadingKeyKeepsMirrors(s, log, e.keyNow, e.now, e.generated, e.io);
    var (rows, nativeKey, key) := LoadOrCreateKey(s.rows, s.nativeKey, e.keyNow, e.generated, e.io);
    if key.Success? && OpenDurable(rows, key.value, e.now, e.deleteOk, e.loadOk).1.Success? {
      OpeningKeepsMirrors(rows, nativeKey, key.value, log, e);
      assert Entries(s, e) == [Restarted(e.now)];
    } else {
      assert log + Entries(s, e) == log;
      if key.Success? {
        OpeningKeepsMirrors(rows, nativeKey, key.value, log, e);
      }
    }
  }

  lemma StopKeepsMirrors(s: System, log: seq<LogEntry>, now: SystemTime)
    requires Mirrors(s, log, now)
    ensures Mirrors(Apply(s, StopServer), log, now)
  {
    if s.server.Running? {
      var sessions := s.server.state.sessions;
      forall k | k in LoadableKeys(s.rows, now)
        ensures k in sessions && PrincipalOf(sessions[k].metadata) == PrincipalOfRow(s.rows[k])
      {
        assert OutlivesSecond(log, k, now);
        assert RowKeeps(s.rows[k], k, Live(log, k).value);
      }
      assert |sessions| == |sessions.Keys|;
      SubsetCardinality(LoadableKeys(s.rows, now), sessions.Keys);
      forall p ensures |LoadableKeysOf(s.rows, now, p)| <= PRODUCTION.maxPerPrincipal {
        forall k | k in LoadableKeysOf(s.rows, now, p) ensures k in PrincipalKeys(sessions, p) {
          assert k in LoadableKeys(s.rows, now);
        }
        SubsetCardinality(LoadableKeysOf(s.rows, now, p), PrincipalKeys(sessions, p));
      }
    }
  }

  lemma RotationKeepsMirrors(s: System, log: seq<LogEntry>, e: Event, now: SystemTime)
    requires e.Rotate? && s.server.Stopped? && Mirrors(s, log, now)
    ensures Mirrors(Apply(s, e), log + Entries(s, e), now)
  {
    assert log + [] == log;
    if e.io.identityOk && e.io.deleteOk {
      forall k: Digest ensures Live(log + [Invalidated], k) == None {
        LiveAfter(log, Invalidated, k);
      }
      var after := Apply(s, e).rows;
      assert after == map[];
      assert LoadableKeys(after, now) == {};
      forall p ensures LoadableKeysOf(after, now, p) == {} {
      }
    }
  }

  // ----- Runs -----

  lemma {:induction false} EveryRunMirrorsItsLog(events: seq<Event>, start: SystemTime)
    requires NeverBack(events, start)
    ensures Mirrors(Run(events), LogOf(events), LastClock(events, start))
  {
    if events == [] {
      assert LoadableKeys(map[], start) == {};
      forall p ensures LoadableKeysOf(map[], start, p) == {} {
      }
    } else {
      var before, e := events[..|events| - 1], events[|events| - 1];
      EveryRunMirrorsItsLog(before, start);
      var s, log, now := Run(before), LogOf(before), LastClock(before, start);
      TimePasses(s, log, now, ClockAfter(e, now));
      assert log + [] == log;
      match e {
        case Request(op) => if s.server.Running? { RequestKeepsMirrors(s, log, op); }
        case StartServer(_, _, _, _, _, _) => if s.server.Stopped? { StartKeepsMirrors(s, log, e); }
        case StopServer => StopKeepsMirrors(s, log, now);
        case Rotate(_, _) => if s.server.Stopped? { RotationKeepsMirrors(s, log, e, now); }
        case LoseKey =>
      }
    }
  }
}
