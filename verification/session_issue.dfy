/** What an issue request answers and what it stores, in terms of the request and of the sessions that have not expired. */
module SessionIssue {
  import opened Wrappers
  import Text
  import opened SessionModel
  import opened SessionAdmission

  // ----- Scopes -----

  /** Label by label: a blank one is left out, and for any other the related one is kept, in its place. */
  ghost predicate KeptAs(blank: string -> bool, related: (string, string) -> bool, labels: seq<string>, kept: seq<string>) {
    if labels == [] then kept == []
    else if blank(labels[0]) then KeptAs(blank, related, labels[1..], kept)
    else kept != [] && related(labels[0], kept[0]) && KeptAs(blank, related, labels[1..], kept[1..])
  }

  lemma {:induction false} MappedIsKept(
    f: string -> string, blank: string -> bool, related: (string, string) -> bool, labels: seq<string>)
    requires forall s :: f(s) == "" <==> blank(s)
    requires forall s :: f(s) != "" ==> related(s, f(s))
    ensures KeptAs(blank, related, labels, MapNonEmpty(f, labels))
  {
    if labels != [] {
      var rest := MapNonEmpty(f, labels[1..]);
      MappedIsKept(f, blank, related, labels[1..]);
      assert ([f(labels[0])] + rest)[1..] == rest && [] + rest == rest;
    }
  }

  /** The scopes without the blank ones, each without the white space around it, in order. */
  ghost predicate AreTrimmedScopes(scopes: seq<string>, kept: seq<string>) {
    KeptAs(Text.AllWhitespace, Text.IsTrimmed, scopes, kept)
  }

  lemma NormalizedScopes(scopes: seq<string>)
    ensures AreTrimmedScopes(scopes, NormalizeScopes(scopes))
  {
    forall s ensures Text.Trim(s) == "" <==> Text.AllWhitespace(s)
             ensures Text.Trim(s) != "" ==> Text.IsTrimmed(s, Text.Trim(s))
    {
      Text.TrimIsExact(s);
    }
    MappedIsKept(Text.Trim, Text.AllWhitespace, Text.IsTrimmed, scopes);
  }

  // ----- The stored session -----

  /** The record holds the user, the lifetime and the token of the request, and its trimmed scopes. */
  ghost predicate HoldsRequest(r: Record, q: IssueRequest) {
    r.metadata.providerId == q.user.providerId && r.metadata.login == q.user.login && r.metadata.stableId == q.user.stableId
    && r.metadata.issuedAt == q.now && r.metadata.expiresAt == q.now + q.ttl && r.pat == q.pat
    && AreTrimmedScopes(q.scopes, r.metadata.grantedScopes)
  }

  lemma NewRecordHolds(q: IssueRequest)
    ensures HoldsRequest(NewRecord(q), q)
  {
    NormalizedScopes(q.scopes);
  }

  /** The session that an accepted request stores, and what verifying its token at any time answers next. */
  lemma IssuedSessionHolds(s: Store, q: IssueRequest, l: Limits, k: Digest, t: SystemTime)
    requires Issue(s, q, l).1 == Success(k)
    ensures var after := Issue(s, q, l).0;
            k in after.state.sessions && HoldsRequest(after.state.sessions[k], q)
            && Verify(after, k, t).1 == if t < q.now + q.ttl then Some(after.state.sessions[k]) else None
  {
    IssuedSessions(s, q, l);
    NewRecordHolds(q);
  }

  lemma ProtectedRowHolds(key: Digest, r: Record, secret: Secret, nonce: Nonce)
    ensures var row, m := ProtectedRow(key, r, secret, nonce), r.metadata;
            row.providerId == m.providerId && row.login == m.login && row.stableId == m.stableId
            && row.grantedScopes == m.grantedScopes
            && row.issuedSeconds == UnixSeconds(m.issuedAt) && row.expiresSeconds == UnixSeconds(m.expiresAt)
            && match r.pat
               case None => row.ciphertext.None? && row.nonce.None?
               case Some(pat) =>
                 row.ciphertext.Some? && row.nonce == Some(nonce)
                 && row.ciphertext.value.plaintext == pat && row.ciphertext.value.secret == secret
  {
  }

  /** The row that an accepted request writes: the same data in whole seconds, and the token, if there is one, sealed
      under the store's secret. */
  lemma IssuedRowHolds(s: Store, q: IssueRequest, l: Limits, k: Digest)
    requires s.durable.Some? && Issue(s, q, l).1 == Success(k)
    ensures var d := Issue(s, q, l).0.durable;
            d.Some? && d.value.secret == s.durable.value.secret && k in d.value.rows
            && var row := d.value.rows[k];
               row.providerId == q.user.providerId && row.login == q.user.login && row.stableId == q.user.stableId
               && row.issuedSeconds == UnixSeconds(q.now) && row.expiresSeconds == UnixSeconds(q.now + q.ttl)
               && AreTrimmedScopes(q.scopes, row.grantedScopes)
               && match q.pat
                  case None => row.ciphertext.None? && row.nonce.None?
                  case Some(pat) =>
                    row.ciphertext.Some? && row.nonce == Some(q.nonce)
                    && row.ciphertext.value.plaintext == pat && row.ciphertext.value.secret == s.durable.value.secret
  {
    NewRecordHolds(q);
    var d := Issue(s, q, l).0.durable;
    assert d.Some? && k in d.value.rows;
    assert d.value.rows[k] == ProtectedRow(k, NewRecord(q), s.durable.value.secret, q.nonce);
    ProtectedRowHolds(k, NewRecord(q), s.durable.value.secret, q.nonce);
  }

  // ----- The answer -----

  /** The sessions are the same user's: the provider and the stable identifier agree, and without the latter the login. */
  predicate SameUser(m: Metadata, user: RepositoryUser) {
    m.providerId == user.providerId && m.stableId == user.stableId && (user.stableId.None? ==> m.login == user.login)
  }

  function UnexpiredKeys(s: Store, now: SystemTime): set<Digest> {
    set k | k in s.state.sessions && now < s.state.sessions[k].metadata.expiresAt
  }

  function UnexpiredKeysOf(s: Store, now: SystemTime, user: RepositoryUser): set<Digest> {
    set k | k in s.state.sessions && now < s.state.sessions[k].metadata.expiresAt && SameUser(s.state.sessions[k].metadata, user)
  }

  /** Issue times of the user that lie in the window, or whose window end cannot be represented. */
  function RecentTimes(s: Store, q: IssueRequest, l: Limits): seq<SystemTime> {
    KeepRecent(RecentOf(s.state.recent, PrincipalOf(NewRecord(q).metadata)), q.now, l.window)
  }

  /** A window whose end cannot be represented ends after every time. */
  predicate InWindow(t: SystemTime, now: SystemTime, window: Duration) {
    now < t + window
  }

  /** The times kept are those whose window has not ended, each as often as it was there. */
  lemma {:induction false} RecentTimesAreThoseInWindow(times: seq<SystemTime>, now: SystemTime, window: Duration, t: SystemTime)
    ensures multiset(KeepRecent(times, now, window))[t] == if InWindow(t, now, window) then multiset(times)[t] else 0
  {
    if times != [] {
      var rest := KeepRecent(times[1..], now, window);
      RecentTimesAreThoseInWindow(times[1..], now, window, t);
      CountOfFirst(times[0], times[1..], t);
      CountOfFirst(times[0], rest, t);
      assert times == [times[0]] + times[1..];
      assert KeepRecent(times, now, window) == if InWindow(times[0], now, window) then [times[0]] + rest else rest;
    }
  }

  lemma CountOfFirst(first: SystemTime, rest: seq<SystemTime>, t: SystemTime)
    ensures multiset([first] + rest)[t] == (if first == t then 1 else 0) + multiset(rest)[t]
  {
  }

  predicate HasRoom(s: Store, q: IssueRequest, l: Limits) {
    |UnexpiredKeysOf(s, q.now, q.user)| < l.maxPerPrincipal && |RecentTimes(s, q, l)| < l.maxIssuances
    && |UnexpiredKeys(s, q.now)| < l.maxSessions
  }

  /** The first of the generated tokens that no unexpired session uses. */
  predicate IsFirstFree(s: Store, q: IssueRequest, k: Digest) {
    k !in UnexpiredKeys(s, q.now)
    && exists i :: 0 <= i < |q.candidates| && q.candidates[i] == k
                   && forall j :: 0 <= j < i ==> q.candidates[j] in UnexpiredKeys(s, q.now)
  }

  lemma UsersAreSame(m: Metadata, q: IssueRequest)
    ensures PrincipalOf(m) == PrincipalOf(NewRecord(q).metadata) <==> SameUser(m, q.user)
  {
  }

  lemma RoomIsAdmission(s: Store, q: IssueRequest, l: Limits)
    requires ValidLimits(l)
    ensures EnforceAdmission(Prune(s.state, q.now, l), PrincipalOf(NewRecord(q).metadata), q.now, l).None? <==> HasRoom(s, q, l)
    ensures EnforceAdmission(Prune(s.state, q.now, l), PrincipalOf(NewRecord(q).metadata), q.now, l).Some? ==>
              EnforceAdmission(Prune(s.state, q.now, l), PrincipalOf(NewRecord(q).metadata), q.now, l).value.RateLimited?
  {
    var p := PrincipalOf(NewRecord(q).metadata);
    var pruned := Prune(s.state, q.now, l);
    RecentOfPruned(s.state.recent, q.now, l.window, p);
    assert pruned.sessions.Keys == UnexpiredKeys(s, q.now) && |pruned.sessions.Keys| == |pruned.sessions|;
    forall k | k in pruned.sessions
      ensures PrincipalOf(pruned.sessions[k].metadata) == p <==> SameUser(pruned.sessions[k].metadata, q.user)
    {
      UsersAreSame(pruned.sessions[k].metadata, q);
    }
    assert PrincipalKeys(pruned.sessions, p) == UnexpiredKeysOf(s, q.now, q.user);
  }

  lemma {:induction false} FirstUnusedIsFirst(sessions: map<Digest, Record>, candidates: seq<Digest>, k: Digest)
    ensures FirstUnused(sessions, candidates) == Some(k) <==>
            k !in sessions && exists i :: 0 <= i < |candidates| && candidates[i] == k
                                          && forall j :: 0 <= j < i ==> candidates[j] in sessions
  {
    if candidates != [] && candidates[0] in sessions {
      var rest := candidates[1..];
      FirstUnusedIsFirst(sessions, rest, k);
      if i :| 0 <= i < |rest| && rest[i] == k && forall j :: 0 <= j < i ==> rest[j] in sessions {
        assert candidates[i + 1] == k;
        forall j | 0 <= j < i + 1 ensures candidates[j] in sessions {
          if 0 < j { assert candidates[j] == rest[j - 1]; }
        }
      }
      if i :| 0 <= i < |candidates| && candidates[i] == k && forall j :: 0 <= j < i ==> candidates[j] in sessions {
        if 0 < i && k !in sessions {
          assert rest[i - 1] == k;
          forall j | 0 <= j < i - 1 ensures rest[j] in sessions {
            assert rest[j] == candidates[j + 1];
          }
        }
      }
    } else if candidates != [] {
      assert candidates[0] == candidates[0];
    }
  }

  /** The storage works for this request, as far as there is storage. */
  predicate StorageWorks(s: Store, q: IssueRequest) { s.durable.None? || (q.deleteOk && q.recordOk) }

  /** A request is accepted exactly if its lifetime is positive and ends at a representable time, storage works, the
      user and the store have room, and a generated token is free; it then gets the first free one. */
  lemma IssueSucceedsIff(s: Store, q: IssueRequest, l: Limits, k: Digest)
    requires ValidLimits(l)
    ensures Issue(s, q, l).1 == Success(k) <==>
            0 < q.ttl && q.now + q.ttl <= MAX_SYSTEM_TIME && StorageWorks(s, q) && HasRoom(s, q, l) && IsFirstFree(s, q, k)
  {
    RoomIsAdmission(s, q, l);
    FirstUnusedIsFirst(PruneExpired(s.state.sessions, q.now), q.candidates, k);
    assert PruneExpired(s.state.sessions, q.now).Keys == UnexpiredKeys(s, q.now);
  }

  /** Which error a refused request gets: the first of these checks that fails. */
  lemma IssueErrors(s: Store, q: IssueRequest, l: Limits)
    requires ValidLimits(l) && Issue(s, q, l).1.Failure?
    ensures var e := Issue(s, q, l).1.error;
            if q.ttl == 0 || MAX_SYSTEM_TIME < q.now + q.ttl then e == InvalidRequest
            else if s.durable.Some? && !q.deleteOk then e == Storage
            else if !HasRoom(s, q, l) then e.RateLimited?
            else if forall k :: k in q.candidates ==> k in UnexpiredKeys(s, q.now) then e == Internal
            else e == Storage
  {
    RoomIsAdmission(s, q, l);
    assert PruneExpired(s.state.sessions, q.now).Keys == UnexpiredKeys(s, q.now);
  }
}
