/** What the invariants of SessionRefinement mean to a caller. */
module SessionTheorems {
  import opened Wrappers
  import opened SessionModel
  import opened SessionAdmission
  import opened SessionKeys
  import opened SessionSystem
  import opened SessionRefinement

  // ----- History refinement -----

  /** Lazy pruning and restarts are unobservable: `verify` answers as the never-pruned log does. */
  lemma VerifyAnswersAsTheLog(events: seq<Event>, start: SystemTime, key: Digest, now: SystemTime)
    requires NeverBack(events, start) && LastClock(events, start) <= now && Run(events).server.Running?
    ensures Verify(StoreOf(Run(events)), key, now).1 == LogAnswer(LogOf(events), key, now)
  {
    EveryRunMirrorsItsLog(events, start);
  }

  /** `revoke` reports true exactly when `verify` would have succeeded: in any state and at any time. */
  lemma RevokeReportsWhatVerifyWould(s: Store, key: Digest, now: SystemTime, deleteOk: bool)
    ensures Revoke(s, key, now, deleteOk).1.Success? ==>
              Revoke(s, key, now, deleteOk).1.value == Verify(s, key, now).1.Some?
    ensures Revoke(s, key, now, deleteOk).1.Failure? <==> s.durable.Some? && !deleteOk
  {
  }

  /** So `revoke` answers as the log, too. */
  lemma RevokeAnswersAsTheLog(events: seq<Event>, start: SystemTime, key: Digest, now: SystemTime)
    requires NeverBack(events, start) && LastClock(events, start) <= now && Run(events).server.Running?
    ensures Revoke(StoreOf(Run(events)), key, now, true).1 == Success(LogAnswer(LogOf(events), key, now).Some?)
  {
    VerifyAnswersAsTheLog(events, start, key, now);
    RevokeReportsWhatVerifyWould(StoreOf(Run(events)), key, now, true);
  }

  /** Without a clock that never goes back the refinement fails: a look-up after the expiry forgets the
      session, so a later look-up whose clock reads a time before the expiry misses it. */
  lemma ClockGoingBackIsObservable(key: Digest, record: Record)
    requires record.metadata.issuedAt == 10 && record.metadata.expiresAt == 15
    ensures var store := Store(StoreState(map[key := record], map[]), None);
            LogAnswer([Issued(key, record)], key, 12) == Some(record)
            && Verify(store, key, 12).1 == Some(record)
            && Verify(Verify(store, key, 20).0, key, 12).1 == None
  {
    assert [Issued(key, record)] == [] + [Issued(key, record)];
    LiveAfter([], Issued(key, record), key);
  }

  // ----- Restart agreement -----

  /** The sessions that outlive the current second are the same in memory and among the rows. */
  lemma RowsAgreeWithSessions(events: seq<Event>, start: SystemTime, now: SystemTime, key: Digest)
    requires NeverBack(events, start) && LastClock(events, start) <= now && Run(events).server.Running?
    ensures var s := Run(events);
            var sessions := s.server.state.sessions;
            (key in s.rows && UnixSeconds(now) < s.rows[key].expiresSeconds
             <==> key in sessions && UnixSeconds(now) < UnixSeconds(sessions[key].metadata.expiresAt))
            && (key in s.rows && UnixSeconds(now) < s.rows[key].expiresSeconds ==> RowKeeps(s.rows[key], key, sessions[key]))
  {
    EveryRunMirrorsItsLog(events, start);
    TimePasses(Run(events), LogOf(events), LastClock(events, start), now);
  }

  /** A token that is new in memory is new among the rows that have not expired. */
  lemma FreshKeyIsFreshAmongRows(events: seq<Event>, start: SystemTime, q: IssueRequest)
    requires NeverBack(events, start) && LastClock(events, start) <= q.now && Run(events).server.Running?
    ensures var r := Issue(StoreOf(Run(events)), q, PRODUCTION).1;
            r.Success? ==> r.value !in DeleteExpiredRows(Run(events).rows, UnixSeconds(q.now))
  {
    var s := Run(events);
    var r := Issue(StoreOf(s), q, PRODUCTION).1;
    if r.Success? {
      IssuedSessions(StoreOf(s), q, PRODUCTION);
      RowsAgreeWithSessions(events, start, q.now, r.value);
    }
  }

  // ----- The key and the rows -----

  predicate SealedUnder(rows: Rows, secret: Secret) {
    forall k :: k in rows && rows[k].ciphertext.Some? ==> rows[k].ciphertext.value.secret == secret
  }

  predicate StoredKeyFits(s: System) {
    s.nativeKey.Some? ==> |s.nativeKey.value| == MANAGED_KEY_BYTES && SealedUnder(s.rows, s.nativeKey.value)
  }

  /** A stored key fits every sealed row, and a running server never uses another one. */
  predicate KeyFitsRows(s: System) {
    StoredKeyFits(s)
    && (s.server.Running? ==>
          |s.server.secret| == MANAGED_KEY_BYTES && SealedUnder(s.rows, s.server.secret)
          && (s.nativeKey.Some? ==> s.nativeKey.value == s.server.secret))
  }

  lemma RequestKeepsSealing(s: Store, op: StoreOp, l: Limits)
    requires s.durable.Some? && SealedUnder(s.durable.value.rows, s.durable.value.secret)
    ensures var after := Step(s, op, l).durable;
            after.Some? && after.value.secret == s.durable.value.secret && SealedUnder(after.value.rows, after.value.secret)
  {
    if op.IssueOp? {
      IssueOutcome(s, op.request, l);
    }
  }

  lemma StartKeepsKeyFit(s: System, e: Event)
    requires e.StartServer? && s.server.Stopped? && KeyFitsRows(s)
    ensures KeyFitsRows(Start(s, e))
  {
    var (rows, nativeKey, key) := LoadOrCreateKey(s.rows, s.nativeKey, e.keyNow, e.generated, e.io);
    assert nativeKey.Some? ==> |nativeKey.value| == MANAGED_KEY_BYTES && SealedUnder(rows, nativeKey.value);
    if key.Success? {
      assert nativeKey == Some(key.value);
    }
  }

  /** Over every run, whatever the clock reads and whatever storage fails: whenever the key store holds a
      key, every sealed row is sealed under that key. */
  lemma {:induction false} KeyAndRowsNeverPart(events: seq<Event>)
    ensures KeyFitsRows(Run(events))
  {
    if events != [] {
      var s, e := Run(events[..|events| - 1]), events[|events| - 1];
      KeyAndRowsNeverPart(events[..|events| - 1]);
      if e.Request? && s.server.Running? {
        RequestKeepsSealing(StoreOf(s), e.op, PRODUCTION);
      } else if e.StartServer? && s.server.Stopped? {
        StartKeepsKeyFit(s, e);
      }
    }
  }

  /** The rotation in the other order: the new key is stored before the rows are deleted. */
  function RotateKeyFirst(rows: Rows, stored: Option<Secret>, generated: ManagedKey, io: KeyIo): (Rows, Option<Secret>) {
    if !io.identityOk || !io.storeOk then (rows, stored)
    else if !io.deleteOk then (rows, Some(generated))
    else (map[], Some(generated))
  }

  predicate HasSealedRow(rows: Rows) { exists k :: k in rows && rows[k].ciphertext.Some? }

  /** The order matters: after any run, the rotation in the other order parts key and rows exactly if the key is
      stored, the deletion fails and some row is sealed. */
  lemma StoringBeforeDeletingPartsThem(events: seq<Event>, generated: ManagedKey, io: KeyIo)
    requires var s := Run(events); s.server.Stopped? && s.nativeKey.Some? && s.nativeKey.value != generated
    ensures var s := Run(events);
            var (rows, nativeKey) := RotateKeyFirst(s.rows, s.nativeKey, generated, io);
            StoredKeyFits(System(rows, nativeKey, Stopped)) <==>
            !(io.identityOk && io.storeOk && !io.deleteOk && HasSealedRow(s.rows))
  {
    KeyAndRowsNeverPart(events);
  }

  /** A rotation that does not wait for the lock: the server keeps running with the key that it has loaded. */
  function RotateUnlocked(s: System, generated: ManagedKey, io: KeyIo): System {
    var (rows, nativeKey, _) := RotateKey(s.rows, s.nativeKey, generated, io);
    System(rows, nativeKey, s.server)
  }

  /** The lock matters: if a rotation succeeds under a running server, the next issued session keeps key and rows
      together exactly if its row has no token to seal or the new key is the old one. */
  lemma RotatingUnderServerPartsThem(s: System, generated: ManagedKey, io: KeyIo, q: IssueRequest)
    requires s.server.Running? && io.identityOk && io.deleteOk && io.storeOk
    requires Issue(StoreOf(RotateUnlocked(s, generated, io)), q, PRODUCTION).1.Success?
    ensures StoredKeyFits(Apply(RotateUnlocked(s, generated, io), Request(IssueOp(q)))) <==>
            q.pat.None? || generated == s.server.secret
  {
    var rotated := RotateUnlocked(s, generated, io);
    var key := Issue(StoreOf(rotated), q, PRODUCTION).1.value;
    IssueOutcome(StoreOf(rotated), q, PRODUCTION);
    assert DeleteExpiredRows(map[], UnixSeconds(q.now)) == map[];
    var after := Apply(rotated, Request(IssueOp(q)));
    assert after.rows == map[key := ProtectedRow(key, NewRecord(q), s.server.secret, q.nonce)];
    assert after.nativeKey == Some(generated) && key in after.rows;
  }

  /** Every effect on SQLite and on the key store succeeds. */
  predicate IoSucceeds(e: Event) {
    e.StartServer? && e.deleteOk && e.loadOk
    && e.io.identityOk && e.io.loadOk && e.io.deleteOk && e.io.countOk && e.io.storeOk
  }

  /** A restart after any run, while the key is still stored, succeeds and restores exactly the sessions that
      outlive the current second, each with its token and its metadata in whole seconds. */
  lemma RestartRestoresSessions(events: seq<Event>, start: SystemTime, e: Event)
    requires NeverBack(events, start) && IoSucceeds(e) && LastClock(events, start) <= e.keyNow <= e.now
    requires Run(events).server.Running? && Run(events).nativeKey.Some?
    ensures var before := Run(events).server;
            var after := Run(events + [StopServer, e]).server;
            after.Running? && after.secret == before.secret
            && forall k: Digest ::
                 (k in after.state.sessions
                  <==> k in before.state.sessions
                       && UnixSeconds(e.now) < UnixSeconds(before.state.sessions[k].metadata.expiresAt))
                 && (k in after.state.sessions ==> after.state.sessions[k] == Truncate(before.state.sessions[k]))
  {
    var s, log, now := Run(events), LogOf(events), LastClock(events, start);
    EveryRunMirrorsItsLog(events, start);
    KeyAndRowsNeverPart(events);
    var stopped := Apply(s, StopServer);
    RunTwoMore(events, StopServer, e);
    TimePasses(s, log, now, e.now);
    StopKeepsMirrors(s, log, e.now);
    OpeningSucceeds(stopped, log, s.server.secret, e);
    OpeningKeepsMirrors(stopped.rows, stopped.nativeKey, s.server.secret, log, e);
    var after := Start(stopped, e).server;
    assert IsRestored(after.state.sessions, log, e.now);
  }

  /** The first start of an installation creates and stores its key and serves without sessions. */
  lemma FirstStartCreatesKey(e: Event)
    requires IoSucceeds(e) && 0 <= e.keyNow
    ensures Run([e]) == System(map[], Some(e.generated), Running(StoreState(map[], map[]), e.generated))
  {
    assert [e][..0] == [] && [e][0] == e;
    KeyIsAnsweredIff(map[], None, e.keyNow, e.generated, e.io, e.generated);
    LoadingKeyEffects(map[], None, e.keyNow, e.generated, e.io, e.generated);
    var (rows, nativeKey, key) := LoadOrCreateKey(map[], None, e.keyNow, e.generated, e.io);
    assert rows == map[] && DeleteExpiredRows(map[], UnixSeconds(e.now)) == map[];
    var loaded := LoadSessions(map[], e.generated, UnixSeconds(e.now));
    assert loaded.Success? && loaded.value == map[];
  }

  lemma RunTwoMore(events: seq<Event>, first: Event, second: Event)
    ensures Run(events + [first, second]) == Apply(Apply(Run(events), first), second)
  {
    assert (events + [first, second])[..|events| + 1] == events + [first];
    assert (events + [first])[..|events|] == events;
  }

  lemma OpeningSucceeds(s: System, log: seq<LogEntry>, secret: Secret, e: Event)
    requires IoSucceeds(e) && s.server.Stopped? && Mirrors(s, log, e.now)
    requires secret != [] && SealedUnder(s.rows, secret)
    ensures OpenDurable(s.rows, secret, e.now, e.deleteOk, e.loadOk).1.Success?
  {
    var swept := DeleteExpiredRows(s.rows, UnixSeconds(e.now));
    DeletingExpiredKeepsMirror(s.rows, log, e.now, e.now);
    DeletingExpiredKeepsLoadable(s.rows, e.now, e.now, PRODUCTION);
    LoadingRestores(swept, log, e.now, secret);
    var loaded := LoadSessions(swept, secret, UnixSeconds(e.now));
    assert loaded.Success? && IsRestored(loaded.value, log, e.now);
    RestoredWithinCaps(swept, loaded.value, log, e.now, PRODUCTION);
    assert |loaded.value| <= MAX_LOCAL_LFS_SESSIONS;
  }

  /** Rows sealed under one key open under another exactly when none of the loaded rows carries a token. */
  lemma OpeningNeedsTheSealingKey(rows: Rows, log: seq<LogEntry>, now: SystemTime, secret: Secret, other: Secret)
    requires RowsMirrorLog(rows, log, now) && LogInPast(log, now) && SealedUnder(rows, secret) && other != secret
    ensures LoadSessions(rows, other, UnixSeconds(now)).Success?
        <==> forall k :: k in LoadableKeys(rows, now) ==> rows[k].ciphertext.None?
  {
    forall k | k in LoadableKeys(rows, now)
      ensures RestoreSession(k, rows[k], other).Success? <==> rows[k].ciphertext.None?
    {
      assert OutlivesSecond(log, k, now);
      RestoreKept(rows[k], k, Live(log, k).value, other);
    }
    var active := DeleteExpiredRows(rows, UnixSeconds(now));
    assert active.Keys == LoadableKeys(rows, now);
  }
}
