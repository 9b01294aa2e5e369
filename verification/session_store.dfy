/** The mutable session store, its metadata database and the native key store, each operation
    proved equal to its specification in SessionModel. */
module SessionStore {
  import opened Wrappers
  import opened SessionModel

  /** The `sessions` table. `ok` says whether SQLite executes the statement; a failing
      statement leaves the table unchanged. */
  class MetadataDatabase {
    var rows: Rows

    constructor ()
      ensures rows == map[]
    {
      rows := map[];
    }

    method DeleteExpiredSessions(nowSeconds: int, ok: bool) returns (r: Result<nat, ServerError>)
      modifies this
      ensures ok ==> r == Success(|ExpiredKeys(old(rows), nowSeconds)|) && rows == DeleteExpiredRows(old(rows), nowSeconds)
      ensures !ok ==> r == Failure(Storage) && rows == old(rows)
    {
      if !ok { return Failure(Storage); }
      r := Success(|ExpiredKeys(rows, nowSeconds)|);
      rows := map k | k in rows && nowSeconds < rows[k].expiresSeconds :: rows[k];
    }

    method RecordSession(key: Digest, row: Row, ok: bool) returns (r: Result<(), ServerError>)
      modifies this
      ensures ok ==> r == Success(()) && rows == old(rows)[key := row]
      ensures !ok ==> r == Failure(Storage) && rows == old(rows)
    {
      if !ok { return Failure(Storage); }
      rows := rows[key := row];
      return Success(());
    }

    method DeleteSession(key: Digest, ok: bool) returns (r: Result<bool, ServerError>)
      modifies this
      ensures ok ==> r == Success(key in old(rows)) && rows == old(rows) - {key}
      ensures !ok ==> r == Failure(Storage) && rows == old(rows)
    {
      if !ok { return Failure(Storage); }
      r := Success(key in rows);
      rows := rows - {key};
    }

    method DeleteAllSessions(ok: bool) returns (r: Result<nat, ServerError>)
      modifies this
      ensures ok ==> r == Success(|old(rows)|) && rows == map[]
      ensures !ok ==> r == Failure(Storage) && rows == old(rows)
    {
      if !ok { return Failure(Storage); }
      r := Success(|rows|);
      rows := map[];
    }
  }

  /** The operating system's credential entry of one installation. */
  class SessionEncryptionKeyStore {
    var secret: Option<Secret>

    constructor ()
      ensures secret == None
    {
      secret := None;
    }

    method Load(ok: bool) returns (r: Result<Option<Secret>, ServerError>)
      ensures r == if ok then Success(secret) else Failure(Storage)
    {
      r := if ok then Success(secret) else Failure(Storage);
    }

    method Store(value: Secret, ok: bool) returns (r: Result<(), ServerError>)
      modifies this
      ensures ok ==> r == Success(()) && secret == Some(value)
      ensures !ok ==> r == Failure(Storage) && secret == old(secret)
    {
      if !ok { return Failure(Storage); }
      secret := Some(value);
      return Success(());
    }
  }

  class LocalLfsSessionStore {
    var sessions: map<Digest, Record>
    var recentIssuances: map<Principal, seq<SystemTime>>
    const durable: MetadataDatabase?
    const secret: Secret
    const limits: Limits

    ghost function Contents(): Store
      reads this, durable
    {
      Store(StoreState(sessions, recentIssuances),
            if durable == null then None else Some(Durable(durable.rows, secret)))
    }

    constructor InMemory(limits: Limits)
      ensures Contents() == Store(StoreState(map[], map[]), None)
      ensures this.limits == limits && durable == null
    {
      this.sessions := map[];
      this.recentIssuances := map[];
      this.durable := null;
      this.secret := [];
      this.limits := limits;
    }

    constructor Restored(database: MetadataDatabase, secret: Secret, sessions: map<Digest, Record>)
      ensures Contents() == Store(StoreState(sessions, map[]), Some(Durable(database.rows, secret)))
      ensures limits == PRODUCTION && durable == database
    {
      this.sessions := sessions;
      this.recentIssuances := map[];
      this.durable := database;
      this.secret := secret;
      this.limits := PRODUCTION;
    }

    static method OpenDurable(database: MetadataDatabase, secret: Secret, now: SystemTime, deleteOk: bool, loadOk: bool)
      returns (r: Result<LocalLfsSessionStore, ServerError>)
      modifies database
      ensures database.rows == SessionModel.OpenDurable(old(database.rows), secret, now, deleteOk, loadOk).0
      ensures match SessionModel.OpenDurable(old(database.rows), secret, now, deleteOk, loadOk).1
              case Failure(e) => r == Failure(e)
              case Success(restored) =>
                r.Success? && fresh(r.value) && r.value.durable == database && r.value.limits == PRODUCTION
                && r.value.Contents() == Store(StoreState(restored, map[]), Some(Durable(database.rows, secret)))
    {
      if secret == [] { return Failure(InvalidConfiguration); }
      var deleted := database.DeleteExpiredSessions(UnixSeconds(now), deleteOk);
      if deleted.Failure? { return Failure(deleted.error); }
      if !loadOk { return Failure(Storage); }
      var loaded := LoadSessions(database.rows, secret, UnixSeconds(now));
      if loaded.Failure? { return Failure(loaded.error); }
      if MAX_LOCAL_LFS_SESSIONS < |loaded.value| { return Failure(Internal); }
      var store := new LocalLfsSessionStore.Restored(database, secret, loaded.value);
      return Success(store);
    }

    method IssueSessionRecord(q: IssueRequest) returns (r: Result<Digest, ServerError>)
      requires |q.candidates| == MAX_TOKEN_GENERATION_ATTEMPTS
      modifies this, durable
      ensures (Contents(), r) == Issue(old(Contents()), q, limits)
    {
      if q.ttl == 0 { return Failure(InvalidRequest); }
      var expiresAt := CheckedAdd(q.now, q.ttl);
      if expiresAt.None? { return Failure(InvalidRequest); }
      var record := MakeRecord(q, expiresAt.value);
      r := AdmitRecord(q, record);
    }

    method MakeRecord(q: IssueRequest, expiresAt: SystemTime) returns (record: Record)
      requires expiresAt == q.now + q.ttl
      ensures record == NewRecord(q)
    {
      var scopes := NormalizeScopes(q.scopes);
      return Record(Metadata(q.user.providerId, q.user.login, q.user.stableId, scopes, q.now, expiresAt), q.pat);
    }

    /** Pruning, admission and storing, once the record is made. */
    method AdmitRecord(q: IssueRequest, record: Record) returns (r: Result<Digest, ServerError>)
      requires |q.candidates| == MAX_TOKEN_GENERATION_ATTEMPTS && record.metadata.issuedAt == q.now
      modifies this, durable
      ensures (Contents(), r) == Admit(old(Contents()), q, record, limits)
    {
      var swept := PruneAndSweep(q.now, q.deleteOk);
      if !swept { return Failure(Storage); }
      var rejection := EnforceAdmission(StoreState(sessions, recentIssuances), PrincipalOf(record.metadata), q.now, limits);
      if rejection.Some? { return Failure(rejection.value); }
      r := RecordUnderUnusedToken(q, record);
    }

    /** Prunes memory, and the rows if there is a database; false if their deletion fails. */
    method PruneAndSweep(now: SystemTime, deleteOk: bool) returns (ok: bool)
      modifies this, durable
      ensures ok == (durable == null || deleteOk)
      ensures Contents() == Store(Prune(old(Contents()).state, now, limits),
                                  if ok then DeleteExpired(old(Contents()).durable, now) else old(Contents()).durable)
    {
      sessions := PruneExpired(sessions, now);
      recentIssuances := PruneRecent(recentIssuances, now, limits.window);
      if durable != null {
        var deleted := durable.DeleteExpiredSessions(UnixSeconds(now), deleteOk);
        return deleted.Success?;
      }
      return true;
    }

    /** The bounded loop over generated tokens. */
    method RecordUnderUnusedToken(q: IssueRequest, record: Record) returns (r: Result<Digest, ServerError>)
      requires |q.candidates| == MAX_TOKEN_GENERATION_ATTEMPTS && record.metadata.issuedAt == q.now
      modifies this, durable
      ensures match FirstUnused(old(sessions), q.candidates)
              case None => r == Failure(Internal) && Contents() == old(Contents())
              case Some(key) =>
                if durable != null && !q.recordOk then r == Failure(Storage) && Contents() == old(Contents())
                else
                  r == Success(key)
                  && Contents() == Store(InsertSession(old(Contents()).state, key, record),
                                         SessionModel.RecordSession(old(Contents()).durable, key, record, q.nonce))
    {
      var principal := PrincipalOf(record.metadata);
      assert q.candidates[0..] == q.candidates;
      for attempt := 0 to MAX_TOKEN_GENERATION_ATTEMPTS
        invariant FirstUnused(sessions, q.candidates) == FirstUnused(sessions, q.candidates[attempt..])
        invariant Contents() == old(Contents())
      {
        var key := q.candidates[attempt];
        assert q.candidates[attempt..][1..] == q.candidates[attempt + 1..];
        if key in sessions { continue; }
        if durable != null {
          var recorded := durable.RecordSession(key, ProtectedRow(key, record, secret, q.nonce), q.recordOk);
          if recorded.Failure? { return Failure(recorded.error); }
        }
        sessions := sessions[key := record];
        recentIssuances := recentIssuances[principal := RecentOf(recentIssuances, principal) + [q.now]];
        return Success(key);
      }
      return Failure(Internal);
    }

    method VerifyRecord(key: Digest, now: SystemTime) returns (r: Option<Record>)
      modifies this
      ensures (Contents(), r) == Verify(old(Contents()), key, now)
    {
      if key in sessions {
        if now < sessions[key].metadata.expiresAt { return Some(sessions[key]); }
        sessions := sessions - {key};
      }
      return None;
    }

    method RevokeToken(key: Digest, now: SystemTime, deleteOk: bool) returns (r: Result<bool, ServerError>)
      modifies this, durable
      ensures (Contents(), r) == Revoke(old(Contents()), key, now, deleteOk)
    {
      if durable != null {
        var deleted := durable.DeleteSession(key, deleteOk);
        if deleted.Failure? { return Failure(deleted.error); }
      }
      var removed := if key in sessions then Some(sessions[key]) else None;
      sessions := sessions - {key};
      return Success(removed.Some? && now < removed.value.metadata.expiresAt);
    }

    method Len(now: SystemTime) returns (n: nat)
      modifies this
      ensures (Contents(), n) == Count(old(Contents()), now)
    {
      sessions := PruneExpired(sessions, now);
      return |sessions|;
    }
  }
}
