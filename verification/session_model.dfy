/** The values of the local session store: clock, records, admission limits, durable rows,
    and the effect of every store operation as a function of the state before it. */
module SessionModel {
  import opened Wrappers
  import Text

  // ----- Clock -----

  // `SystemTime` counts nanoseconds from the Unix epoch; its seconds are a signed 64-bit value.
  const NANOS_PER_SECOND: int := 1_000_000_000
  const MAX_SYSTEM_TIME: int := 9_223_372_036_854_775_807_999_999_999
  const U64_MAX: int := 18_446_744_073_709_551_615

  type SystemTime = int
  type Duration = nat

  function CheckedAdd(time: SystemTime, duration: Duration): Option<SystemTime> {
    if time + duration <= MAX_SYSTEM_TIME then Some(time + duration) else None
  }

  /** Whole seconds since the epoch; times before the epoch read as zero. */
  function UnixSeconds(time: SystemTime): (s: nat)
    ensures 0 <= time ==> s * NANOS_PER_SECOND <= time < (s + 1) * NANOS_PER_SECOND
    ensures time < 0 ==> s == 0
  {
    if time < 0 then 0 else time / NANOS_PER_SECOND
  }

  function SystemTimeFromUnixSeconds(s: int): Option<SystemTime> {
    if s < 0 then None else Some(s * NANOS_PER_SECOND)
  }

  lemma UnixSecondsMonotone(a: SystemTime, b: SystemTime)
    requires a <= b
    ensures UnixSeconds(a) <= UnixSeconds(b)
  {
  }

  /** A time read back from whole seconds truncates to the same second. */
  lemma SecondsSurviveRoundTrip(time: SystemTime)
    ensures SystemTimeFromUnixSeconds(UnixSeconds(time)).Some?
    ensures UnixSeconds(SystemTimeFromUnixSeconds(UnixSeconds(time)).value) == UnixSeconds(time)
    ensures 0 <= time ==> SystemTimeFromUnixSeconds(UnixSeconds(time)).value <= time
  {
  }

  // ----- Records -----

  /** SHA-256 digest of a bearer token: the only form in which the store keeps a token. */
  type Digest = d: seq<Byte> | |d| == 32 witness seq(32, _ => 0)
  type Secret = seq<Byte>

  datatype RepositoryUser = RepositoryUser(providerId: string, login: string, stableId: Option<string>)

  datatype Metadata = Metadata(
    providerId: string, login: string, stableId: Option<string>, grantedScopes: seq<string>,
    issuedAt: SystemTime, expiresAt: SystemTime)

  datatype Record = Record(metadata: Metadata, pat: Option<string>)

  datatype Identity = StableId(id: string) | Login(login: string)
  datatype Principal = Principal(providerId: string, identity: Identity)

  function PrincipalOf(m: Metadata): Principal {
    Principal(m.providerId, match m.stableId case Some(id) => StableId(id) case None => Login(m.login))
  }

  /** Maps the labels and drops those that become empty. */
  function MapNonEmpty(f: string -> string, labels: seq<string>): seq<string> {
    if labels == [] then []
    else (if f(labels[0]) == "" then [] else [f(labels[0])]) + MapNonEmpty(f, labels[1..])
  }

  /** Scope labels are trimmed and blank ones dropped. */
  function NormalizeScopes(scopes: seq<string>): seq<string> { MapNonEmpty(Text.Trim, scopes) }

  datatype Limits = Limits(maxSessions: nat, maxPerPrincipal: nat, maxIssuances: nat, window: Duration)

  predicate ValidLimits(l: Limits) {
    0 < l.maxSessions && 0 < l.maxPerPrincipal && 0 < l.maxIssuances && 0 < l.window
  }

  const MAX_LOCAL_LFS_SESSIONS: nat := 1024
  const PRODUCTION := Limits(MAX_LOCAL_LFS_SESSIONS, 16, 8, 60_000_000_000)
  const MAX_TOKEN_GENERATION_ATTEMPTS: nat := 8

  datatype ServerError =
    | InvalidRequest
    | RateLimited(retryAfterSeconds: nat)
    | InvalidConfiguration
    | Internal
    | Storage // SQLite or the native credential store failed

  datatype StoreState = StoreState(sessions: map<Digest, Record>, recent: map<Principal, seq<SystemTime>>)

  // ----- Pruning -----

  function PruneExpired(sessions: map<Digest, Record>, now: SystemTime): map<Digest, Record> {
    map k | k in sessions && now < sessions[k].metadata.expiresAt :: sessions[k]
  }

  /** The issue times whose window still covers `now`, in order. */
  function KeepRecent(times: seq<SystemTime>, now: SystemTime, window: Duration): seq<SystemTime> {
    if times == [] then []
    else (if now < times[0] + window then [times[0]] else []) + KeepRecent(times[1..], now, window)
  }

  function PruneRecent(recent: map<Principal, seq<SystemTime>>, now: SystemTime, window: Duration)
    : map<Principal, seq<SystemTime>>
  {
    map p | p in recent && KeepRecent(recent[p], now, window) != [] :: KeepRecent(recent[p], now, window)
  }

  function Prune(s: StoreState, now: SystemTime, l: Limits): StoreState {
    StoreState(PruneExpired(s.sessions, now), PruneRecent(s.recent, now, l.window))
  }

  // ----- Admission -----

  function PrincipalKeys(sessions: map<Digest, Record>, p: Principal): set<Digest> {
    set k | k in sessions && PrincipalOf(sessions[k].metadata) == p
  }

  /** `t` is the earliest expiry among the given sessions. */
  predicate ExpiresFirst(sessions: map<Digest, Record>, keys: set<Digest>, t: SystemTime)
    requires keys <= sessions.Keys
  {
    t in (set k | k in keys :: sessions[k].metadata.expiresAt)
    && forall k :: k in keys ==> t <= sessions[k].metadata.expiresAt
  }

  lemma {:induction false} FirstExpiryExists(sessions: map<Digest, Record>, keys: set<Digest>)
    requires keys != {} && keys <= sessions.Keys
    ensures exists t :: ExpiresFirst(sessions, keys, t)
  {
    var k: Digest :| k in keys;
    var t := sessions[k].metadata.expiresAt;
    var rest := keys - {k};
    if rest != {} {
      FirstExpiryExists(sessions, rest);
      var u :| ExpiresFirst(sessions, rest, u);
      t := if u < t then u else t;
    }
    forall j | j in keys ensures t <= sessions[j].metadata.expiresAt {
      assert j == k || j in rest;
    }
    assert ExpiresFirst(sessions, keys, t);
  }

  function FirstExpiry(sessions: map<Digest, Record>, keys: set<Digest>): (t: SystemTime)
    requires keys != {} && keys <= sessions.Keys
    ensures ExpiresFirst(sessions, keys, t)
  {
    FirstExpiryExists(sessions, keys);
    var t :| t in (set k | k in keys :: sessions[k].metadata.expiresAt) && ExpiresFirst(sessions, keys, t);
    t
  }

  /** Whole seconds from `now` until `retryAt`, rounded up, at least one, at most a `u64`. */
  function RetryAfterDuration(retryAt: SystemTime, now: SystemTime): nat {
    var nanos := if now < retryAt then retryAt - now else 0;
    var seconds := nanos / NANOS_PER_SECOND + (if nanos % NANOS_PER_SECOND > 0 then 1 else 0);
    if seconds > U64_MAX then U64_MAX else if seconds < 1 then 1 else seconds
  }

  function RetryAfterExpiry(sessions: map<Digest, Record>, keys: set<Digest>, now: SystemTime): nat
    requires keys <= sessions.Keys
  {
    if keys == {} then 1 else RetryAfterDuration(FirstExpiry(sessions, keys), now)
  }

  function RecentOf(recent: map<Principal, seq<SystemTime>>, p: Principal): seq<SystemTime> {
    if p in recent then recent[p] else []
  }

  /** The earliest window end among the issue times, leaving out ends that `SystemTime` cannot represent. */
  function FirstWindowEnd(times: seq<SystemTime>, window: Duration): (r: Option<SystemTime>)
    ensures r.Some? ==> r.value - window in times && r.value <= MAX_SYSTEM_TIME
    ensures forall i :: 0 <= i < |times| && times[i] + window <= MAX_SYSTEM_TIME
              ==> r.Some? && r.value <= times[i] + window
  {
    if times == [] then None
    else
      var rest := FirstWindowEnd(times[1..], window);
      match CheckedAdd(times[0], window)
      case None => rest
      case Some(end) => if rest.Some? && rest.value < end then rest else Some(end)
  }

  function EnforceAdmission(s: StoreState, p: Principal, now: SystemTime, l: Limits): Option<ServerError> {
    var mine := PrincipalKeys(s.sessions, p);
    var recent := RecentOf(s.recent, p);
    if l.maxPerPrincipal <= |mine| then
      Some(RateLimited(RetryAfterExpiry(s.sessions, mine, now)))
    else if p in s.recent && l.maxIssuances <= |recent| then
      Some(RateLimited(
        match FirstWindowEnd(recent, l.window)
        case Some(end) => RetryAfterDuration(end, now)
        case None => if l.window / NANOS_PER_SECOND < 1 then 1 else l.window / NANOS_PER_SECOND))
    else if l.maxSessions <= |s.sessions| then
      Some(RateLimited(RetryAfterExpiry(s.sessions, s.sessions.Keys, now)))
    else None
  }

  /** The first candidate key that no stored session uses. */
  function FirstUnused(sessions: map<Digest, Record>, candidates: seq<Digest>): (r: Option<Digest>)
    ensures r.Some? ==> r.value in candidates && r.value !in sessions
    ensures r.None? <==> forall k :: k in candidates ==> k in sessions
  {
    if candidates == [] then None
    else if candidates[0] !in sessions then Some(candidates[0])
    else FirstUnused(sessions, candidates[1..])
  }

  // ----- Durable rows -----

  /** What the ciphertext authenticates besides the token itself. */
  datatype AssociatedData = AssociatedData(
    tokenKey: Digest, providerId: string, login: string, stableId: Option<string>,
    grantedScopes: seq<string>, issuedSeconds: int, expiresSeconds: int)

  /** Ideal authenticated encryption: a ciphertext remembers everything it was sealed with. */
  datatype Ciphertext = Ciphertext(secret: Secret, nonce: seq<Byte>, data: AssociatedData, plaintext: string)

  const NONCE_LEN := 12
  type Nonce = n: seq<Byte> | |n| == 12 witness seq(12, _ => 0)

  function Open(c: Ciphertext, secret: Secret, nonce: seq<Byte>, data: AssociatedData): Option<string> {
    if |nonce| == NONCE_LEN && c.secret == secret && c.nonce == nonce && c.data == data
    then Some(c.plaintext) else None
  }

  datatype Row = Row(
    providerId: string, login: string, stableId: Option<string>, grantedScopes: seq<string>,
    issuedSeconds: int, expiresSeconds: int,
    ciphertext: Option<Ciphertext>, nonce: Option<seq<Byte>>)

  type Rows = map<Digest, Row>

  function AssociatedDataOf(key: Digest, m: Metadata): AssociatedData {
    AssociatedData(key, m.providerId, m.login, m.stableId, m.grantedScopes,
                   UnixSeconds(m.issuedAt), UnixSeconds(m.expiresAt))
  }

  /** `record_session`: the row written for a record. */
  function ProtectedRow(key: Digest, r: Record, secret: Secret, nonce: Nonce): Row {
    var m := r.metadata;
    Row(m.providerId, m.login, m.stableId, m.grantedScopes, UnixSeconds(m.issuedAt), UnixSeconds(m.expiresAt),
        if r.pat.Some? then Some(Ciphertext(secret, nonce, AssociatedDataOf(key, m), r.pat.value)) else None,
        if r.pat.Some? then Some(nonce) else None)
  }

  /** `restore_session`: the record read back from a row. */
  function RestoreSession(key: Digest, row: Row, secret: Secret): Result<Record, ServerError> {
    var issuedAt := SystemTimeFromUnixSeconds(row.issuedSeconds);
    var expiresAt := SystemTimeFromUnixSeconds(row.expiresSeconds);
    if issuedAt.None? || expiresAt.None? || expiresAt.value <= issuedAt.value then Failure(Internal)
    else
      var m := Metadata(row.providerId, row.login, row.stableId, row.grantedScopes, issuedAt.value, expiresAt.value);
      match (row.ciphertext, row.nonce)
      case (Some(c), Some(n)) =>
        (match Open(c, secret, n, AssociatedDataOf(key, m))
         case Some(pat) => Success(Record(m, Some(pat)))
         case None => Failure(Internal))
      case (None, None) => Success(Record(m, None))
      case _ => Failure(Internal)
  }

  /** Session metadata as durable rows keep it: both times in whole seconds. */
  function Truncate(r: Record): Record {
    r.(metadata := r.metadata.(issuedAt := UnixSeconds(r.metadata.issuedAt) * NANOS_PER_SECOND,
                               expiresAt := UnixSeconds(r.metadata.expiresAt) * NANOS_PER_SECOND))
  }

  function DeleteExpiredRows(rows: Rows, nowSeconds: int): Rows {
    map k | k in rows && nowSeconds < rows[k].expiresSeconds :: rows[k]
  }

  function ExpiredKeys(rows: Rows, nowSeconds: int): set<Digest> {
    set k | k in rows && rows[k].expiresSeconds <= nowSeconds
  }

  function LoadSessions(rows: Rows, secret: Secret, nowSeconds: int): Result<map<Digest, Record>, ServerError> {
    var active := DeleteExpiredRows(rows, nowSeconds);
    if forall k :: k in active ==> RestoreSession(k, active[k], secret).Success?
    then Success(map k | k in active :: RestoreSession(k, active[k], secret).value)
    else Failure(Internal)
  }

  // ----- Store operations -----

  datatype Durable = Durable(rows: Rows, secret: Secret)
  datatype Store = Store(state: StoreState, durable: Option<Durable>)

  /** One issue request with everything its environment supplies: the clock value, the digests of
      the tokens that would be generated, the nonce, and whether each SQLite statement succeeds. */
  datatype IssueRequest = IssueRequest(
    user: RepositoryUser, scopes: seq<string>, ttl: Duration, pat: Option<string>,
    now: SystemTime, candidates: seq<Digest>, nonce: Nonce, deleteOk: bool, recordOk: bool)

  function NewRecord(q: IssueRequest): Record {
    Record(Metadata(q.user.providerId, q.user.login, q.user.stableId, NormalizeScopes(q.scopes),
                    q.now, q.now + q.ttl), q.pat)
  }

  function DeleteExpired(d: Option<Durable>, now: SystemTime): Option<Durable> {
    match d
    case None => None
    case Some(Durable(rows, secret)) => Some(Durable(DeleteExpiredRows(rows, UnixSeconds(now)), secret))
  }

  function RecordSession(d: Option<Durable>, key: Digest, r: Record, nonce: Nonce): Option<Durable> {
    match d
    case None => None
    case Some(Durable(rows, secret)) => Some(Durable(rows[key := ProtectedRow(key, r, secret, nonce)], secret))
  }

  function InsertSession(s: StoreState, key: Digest, r: Record): StoreState {
    var p := PrincipalOf(r.metadata);
    StoreState(s.sessions[key := r], s.recent[p := RecentOf(s.recent, p) + [r.metadata.issuedAt]])
  }

  /** Pruning, admission and storing, once the record is made. */
  function Admit(s: Store, q: IssueRequest, r: Record, l: Limits): (Store, Result<Digest, ServerError>) {
    var pruned := Prune(s.state, q.now, l);
    if s.durable.Some? && !q.deleteOk then (s.(state := pruned), Failure(Storage))
    else
      var swept := Store(pruned, DeleteExpired(s.durable, q.now));
      match EnforceAdmission(pruned, PrincipalOf(r.metadata), q.now, l)
      case Some(error) => (swept, Failure(error))
      case None =>
        match FirstUnused(pruned.sessions, q.candidates)
        case None => (swept, Failure(Internal))
        case Some(key) =>
          if s.durable.Some? && !q.recordOk then (swept, Failure(Storage))
          else (Store(InsertSession(pruned, key, r), RecordSession(swept.durable, key, r, q.nonce)), Success(key))
  }

  function Issue(s: Store, q: IssueRequest, l: Limits): (Store, Result<Digest, ServerError>) {
    if q.ttl == 0 || CheckedAdd(q.now, q.ttl).None? then (s, Failure(InvalidRequest))
    else Admit(s, q, NewRecord(q), l)
  }

  /** `take_active_session`: the record found, and the sessions left behind. */
  function TakeActive(sessions: map<Digest, Record>, key: Digest, now: SystemTime)
    : (map<Digest, Record>, Option<Record>)
  {
    if key !in sessions then (sessions, None)
    else if now < sessions[key].metadata.expiresAt then (sessions, Some(sessions[key]))
    else (sessions - {key}, None)
  }

  function Verify(s: Store, key: Digest, now: SystemTime): (Store, Option<Record>) {
    var (sessions, found) := TakeActive(s.state.sessions, key, now);
    (s.(state := s.state.(sessions := sessions)), found)
  }

  function Revoke(s: Store, key: Digest, now: SystemTime, deleteOk: bool): (Store, Result<bool, ServerError>) {
    if s.durable.Some? && !deleteOk then (s, Failure(Storage))
    else
      (Store(s.state.(sessions := s.state.sessions - {key}),
             match s.durable
             case None => None
             case Some(Durable(rows, secret)) => Some(Durable(rows - {key}, secret))),
       Success(key in s.state.sessions && now < s.state.sessions[key].metadata.expiresAt))
  }

  /** The session count that the store's `Debug` output shows; counting prunes. */
  function Count(s: Store, now: SystemTime): (Store, nat) {
    var sessions := PruneExpired(s.state.sessions, now);
    (s.(state := s.state.(sessions := sessions)), |sessions|)
  }

  datatype StoreOp =
    | IssueOp(request: IssueRequest)
    | VerifyOp(key: Digest, at: SystemTime)
    | RevokeOp(key: Digest, at: SystemTime, deleteOk: bool)
    | CountOp(at: SystemTime)

  /** The clock value an operation reads before it takes the lock. */
  function Clock(op: StoreOp): SystemTime {
    if op.IssueOp? then op.request.now else op.at
  }

  function Step(s: Store, op: StoreOp, l: Limits): Store {
    match op
    case IssueOp(q) => Issue(s, q, l).0
    case VerifyOp(key, now) => Verify(s, key, now).0
    case RevokeOp(key, now, ok) => Revoke(s, key, now, ok).0
    case CountOp(now) => Count(s, now).0
  }

  /** `open_durable`: the rows left behind and the restored sessions. */
  function OpenDurable(rows: Rows, secret: Secret, now: SystemTime, deleteOk: bool, loadOk: bool)
    : (Rows, Result<map<Digest, Record>, ServerError>)
  {
    if secret == [] then (rows, Failure(InvalidConfiguration))
    else if !deleteOk then (rows, Failure(Storage))
    else
      var swept := DeleteExpiredRows(rows, UnixSeconds(now));
      if !loadOk then (swept, Failure(Storage))
      else
        match LoadSessions(swept, secret, UnixSeconds(now))
        case Failure(e) => (swept, Failure(e))
        case Success(sessions) =>
          if MAX_LOCAL_LFS_SESSIONS < |sessions| then (swept, Failure(Internal)) else (swept, Success(sessions))
  }
}
