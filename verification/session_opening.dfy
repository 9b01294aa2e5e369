/** Opening a store for any rows and any clock: what restores, what is refused, and which rows are left. */
module SessionOpening {
  import opened Wrappers
  import opened SessionModel
  import opened SessionIssue

  // ----- One row -----

  /** The ciphertext was sealed for this row. */
  predicate Describes(data: AssociatedData, key: Digest, row: Row) {
    data.tokenKey == key && data.providerId == row.providerId && data.login == row.login && data.stableId == row.stableId
    && data.grantedScopes == row.grantedScopes && data.issuedSeconds == row.issuedSeconds
    && data.expiresSeconds == row.expiresSeconds
  }

  predicate OpensAsMetadata(row: Row, m: Metadata) {
    0 <= row.issuedSeconds < row.expiresSeconds
    && m.providerId == row.providerId && m.login == row.login && m.stableId == row.stableId
    && m.grantedScopes == row.grantedScopes
    && m.issuedAt == row.issuedSeconds * 1_000_000_000 && m.expiresAt == row.expiresSeconds * 1_000_000_000
  }

  /** The token of the row: none without ciphertext and nonce; otherwise sealed for this row, with this secret and nonce. */
  predicate OpensAsToken(key: Digest, row: Row, secret: Secret, pat: Option<string>) {
    match pat
    case None => row.ciphertext.None? && row.nonce.None?
    case Some(text) =>
      row.ciphertext.Some? && row.nonce.Some? && row.ciphertext.value.plaintext == text
      && row.ciphertext.value.secret == secret && row.ciphertext.value.nonce == row.nonce.value && |row.nonce.value| == 12
      && Describes(row.ciphertext.value.data, key, row)
  }

  /** A row restores as this record exactly if it expires in a later second than it was issued in, and its token opens. */
  lemma RestoringIsExact(key: Digest, row: Row, secret: Secret, r: Record)
    ensures RestoreSession(key, row, secret) == Success(r)
        <==> OpensAsMetadata(row, r.metadata) && OpensAsToken(key, row, secret, r.pat)
  {
    if 0 <= row.issuedSeconds < row.expiresSeconds {
      var m := Metadata(row.providerId, row.login, row.stableId, row.grantedScopes,
                        row.issuedSeconds * NANOS_PER_SECOND, row.expiresSeconds * NANOS_PER_SECOND);
      DataOfRow(key, row, m);
    }
  }

  lemma DataOfRow(key: Digest, row: Row, m: Metadata)
    requires OpensAsMetadata(row, m)
    ensures forall data :: data == AssociatedDataOf(key, m) <==> Describes(data, key, row)
  {
    assert UnixSeconds(m.issuedAt) == row.issuedSeconds && UnixSeconds(m.expiresAt) == row.expiresSeconds;
  }

  // ----- All rows -----

  predicate IsUnexpired(rows: Rows, now: SystemTime, k: Digest) {
    k in rows && UnixSeconds(now) < rows[k].expiresSeconds
  }

  /** The sessions are those of the unexpired rows. */
  ghost predicate AreSessionsOf(sessions: map<Digest, Record>, rows: Rows, secret: Secret, now: SystemTime) {
    (forall k :: k in sessions <==> IsUnexpired(rows, now, k))
    && forall k :: k in sessions ==>
         OpensAsMetadata(rows[k], sessions[k].metadata) && OpensAsToken(k, rows[k], secret, sessions[k].pat)
  }

  lemma LoadingIsExact(rows: Rows, secret: Secret, now: SystemTime, sessions: map<Digest, Record>)
    ensures LoadSessions(rows, secret, UnixSeconds(now)) == Success(sessions) <==> AreSessionsOf(sessions, rows, secret, now)
  {
    var active := DeleteExpiredRows(rows, UnixSeconds(now));
    assert forall k :: k in active <==> IsUnexpired(rows, now, k);
    if AreSessionsOf(sessions, rows, secret, now) {
      forall k | k in active ensures RestoreSession(k, active[k], secret) == Success(sessions[k]) {
        RestoringIsExact(k, rows[k], secret, sessions[k]);
      }
      var loaded := LoadSessions(rows, secret, UnixSeconds(now)).value;
      assert loaded == sessions;
    }
    if LoadSessions(rows, secret, UnixSeconds(now)) == Success(sessions) {
      forall k | k in sessions
        ensures OpensAsMetadata(rows[k], sessions[k].metadata) && OpensAsToken(k, rows[k], secret, sessions[k].pat)
      {
        RestoringIsExact(k, rows[k], secret, sessions[k]);
      }
    }
  }

  lemma SweepingKeepsSessions(rows: Rows, secret: Secret, now: SystemTime, sessions: map<Digest, Record>)
    ensures AreSessionsOf(sessions, DeleteExpiredRows(rows, UnixSeconds(now)), secret, now)
        <==> AreSessionsOf(sessions, rows, secret, now)
  {
    var swept := DeleteExpiredRows(rows, UnixSeconds(now));
    assert forall k :: IsUnexpired(swept, now, k) <==> IsUnexpired(rows, now, k);
    assert forall k :: k in swept ==> swept[k] == rows[k];
  }

  /** For any rows and any clock: a store opens exactly if there is a secret, storage works, and the unexpired rows all
      restore and are at most 1024; it then holds their sessions and nothing else. */
  lemma OpeningIsExact(rows: Rows, secret: Secret, now: SystemTime, deleteOk: bool, loadOk: bool, sessions: map<Digest, Record>)
    ensures OpenDurable(rows, secret, now, deleteOk, loadOk).1 == Success(sessions)
        <==> secret != [] && deleteOk && loadOk && |sessions| <= 1024 && AreSessionsOf(sessions, rows, secret, now)
  {
    LoadingIsExact(DeleteExpiredRows(rows, UnixSeconds(now)), secret, now, sessions);
    SweepingKeepsSessions(rows, secret, now, sessions);
  }

  /** Whatever the answer, the expired rows are gone if there is a secret and the deletion succeeded, and no other row. */
  lemma OpeningSweeps(rows: Rows, secret: Secret, now: SystemTime, deleteOk: bool, loadOk: bool, k: Digest)
    ensures var after := OpenDurable(rows, secret, now, deleteOk, loadOk).0;
            (k in after <==> k in rows && (secret == [] || !deleteOk || UnixSeconds(now) < rows[k].expiresSeconds))
            && (k in after ==> after[k] == rows[k])
  {
  }

  lemma OpeningErrors(rows: Rows, secret: Secret, now: SystemTime, deleteOk: bool, loadOk: bool)
    requires OpenDurable(rows, secret, now, deleteOk, loadOk).1.Failure?
    ensures OpenDurable(rows, secret, now, deleteOk, loadOk).1.error
         == if secret == [] then InvalidConfiguration else if !deleteOk || !loadOk then Storage else Internal
  {
  }

  /** A session that is issued and expires within one second leaves a row that blocks every opening by a clock that
      stands before that second. */
  lemma SameSecondRowBlocksOpening(s: Store, q: IssueRequest, l: Limits, k: Digest, now: SystemTime)
    requires s.durable.Some? && Issue(s, q, l).1 == Success(k)
    requires UnixSeconds(now) < UnixSeconds(q.now) == UnixSeconds(q.now + q.ttl)
    ensures var d := Issue(s, q, l).0.durable;
            d.Some? && OpenDurable(d.value.rows, d.value.secret, now, true, true).1.Failure?
  {
    IssuedRowHolds(s, q, l, k);
    var d := Issue(s, q, l).0.durable.value;
    var answer := OpenDurable(d.rows, d.secret, now, true, true).1;
    if answer.Success? {
      OpeningIsExact(d.rows, d.secret, now, true, true, answer.value);
      assert IsUnexpired(d.rows, now, k);
      assert false;
    }
  }
}
