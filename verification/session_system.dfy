/** Whole runs of one installation: a server that starts, serves sessions and stops, the rotation
    command, and the never-pruned log that the store is compared with. */
module SessionSystem {
  import opened Wrappers
  import opened SessionModel
  import opened SessionKeys

  datatype Server = Stopped | Running(state: StoreState, secret: Secret)
  datatype System = System(rows: Rows, nativeKey: Option<Secret>, server: Server)

  datatype Event =
    | Request(op: StoreOp)
    | StartServer(keyNow: SystemTime, now: SystemTime, generated: ManagedKey, io: KeyIo, deleteOk: bool, loadOk: bool)
    | StopServer
    | Rotate(generated: ManagedKey, io: KeyIo)
    | LoseKey // the native credential entry disappears

  const Installed := System(map[], None, Stopped)

  function StoreOf(s: System): Store
    requires s.server.Running?
  {
    Store(s.server.state, Some(Durable(s.rows, s.server.secret)))
  }

  function WithStore(s: System, store: Store): System
    requires s.server.Running? && store.durable.Some?
  {
    s.(rows := store.durable.value.rows, server := s.server.(state := store.state))
  }

  /** Starting takes the process lock, loads or creates the managed key and opens the durable store. */
  function Start(s: System, e: Event): System
    requires e.StartServer? && s.server.Stopped?
  {
    var (rows, nativeKey, key) := LoadOrCreateKey(s.rows, s.nativeKey, e.keyNow, e.generated, e.io);
    match key
    case Failure(_) => System(rows, nativeKey, Stopped)
    case Success(secret) =>
      var (swept, loaded) := OpenDurable(rows, secret, e.now, e.deleteOk, e.loadOk);
      match loaded
      case Failure(_) => System(swept, nativeKey, Stopped)
      case Success(sessions) => System(swept, nativeKey, Running(StoreState(sessions, map[]), secret))
  }

  /** One step. A request needs a running server; starting and rotating need the lock that a running server holds. */
  function Apply(s: System, e: Event): System {
    match e
    case Request(op) =>
      if s.server.Stopped? then s else WithStore(s, Step(StoreOf(s), op, PRODUCTION))
    case StartServer(_, _, _, _, _, _) =>
      if s.server.Running? then s else Start(s, e)
    case StopServer => s.(server := Stopped)
    case Rotate(generated, io) =>
      if s.server.Running? then s
      else
        var (rows, nativeKey, _) := RotateKey(s.rows, s.nativeKey, generated, io);
        System(rows, nativeKey, Stopped)
    case LoseKey => s.(nativeKey := None)
  }

  function Run(events: seq<Event>): System {
    if events == [] then Installed else Apply(Run(events[..|events| - 1]), events[|events| - 1])
  }

  // ----- The never-pruned log -----

  datatype LogEntry =
    | Issued(key: Digest, record: Record)
    | Revoked(key: Digest)
    | Restarted(now: SystemTime)
    | Invalidated // a rotation deleted every session

  /** What one step adds to the log: only operations that took effect. */
  function Entries(s: System, e: Event): seq<LogEntry> {
    match e
    case Request(IssueOp(q)) =>
      if s.server.Stopped? then []
      else (match Issue(StoreOf(s), q, PRODUCTION).1
            case Success(key) => [Issued(key, NewRecord(q))]
            case Failure(_) => [])
    case Request(RevokeOp(key, now, ok)) =>
      if s.server.Running? && Revoke(StoreOf(s), key, now, ok).1.Success? then [Revoked(key)] else []
    case StartServer(_, now, _, _, _, _) =>
      if s.server.Stopped? && Start(s, e).server.Running? then [Restarted(now)] else []
    case Rotate(_, io) =>
      if s.server.Stopped? && io.identityOk && io.deleteOk then [Invalidated] else []
    case _ => []
  }

  function LogOf(events: seq<Event>): seq<LogEntry> {
    if events == [] then []
    else
      var before := events[..|events| - 1];
      LogOf(before) + Entries(Run(before), events[|events| - 1])
  }

  /** The latest issuance of `key` that nothing in the log has ended. A restart keeps a session exactly
      when it outlives the current second, with its times in whole seconds; expiry itself is not logged. */
  function Live(log: seq<LogEntry>, key: Digest): Option<Record> {
    if log == [] then None
    else
      var earlier := Live(log[..|log| - 1], key);
      match log[|log| - 1]
      case Issued(k, r) => if k == key then Some(r) else earlier
      case Revoked(k) => if k == key then None else earlier
      case Restarted(now) =>
        if earlier.Some? && UnixSeconds(now) < UnixSeconds(earlier.value.metadata.expiresAt)
        then Some(Truncate(earlier.value)) else None
      case Invalidated => None
  }

  /** What a store that never prunes answers to `verify`. */
  function LogAnswer(log: seq<LogEntry>, key: Digest, now: SystemTime): Option<Record> {
    var r := Live(log, key);
    if r.Some? && now < r.value.metadata.expiresAt then r else None
  }

  // ----- Clock readings -----

  /** The clock is read before the store's lock is taken. `NeverBack` says that the readings, in lock
      order, never decrease, starting from `start`. */
  predicate NotBefore(e: Event, now: SystemTime) {
    match e
    case Request(op) => now <= Clock(op)
    case StartServer(keyNow, t, _, _, _, _) => now <= keyNow <= t
    case _ => true
  }

  function ClockAfter(e: Event, now: SystemTime): SystemTime {
    match e
    case Request(op) => Clock(op)
    case StartServer(_, t, _, _, _, _) => t
    case _ => now
  }

  function LastClock(events: seq<Event>, start: SystemTime): SystemTime {
    if events == [] then start
    else ClockAfter(events[|events| - 1], LastClock(events[..|events| - 1], start))
  }

  predicate NeverBack(events: seq<Event>, start: SystemTime) {
    events == []
    || (NeverBack(events[..|events| - 1], start)
        && NotBefore(events[|events| - 1], LastClock(events[..|events| - 1], start)))
  }
}
