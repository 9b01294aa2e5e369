/** Waiting for a child while two reader threads drain its pipes. The child, its descendants, the readers,
    the channel and the clock are a world that may change in any allowed way around every call of the waiter. */
module ChildProcess {
  import opened Wrappers
  import opened PipeCapture

  // Durations in nanoseconds.
  const OUTPUT_DRAIN_GRACE: nat := 2_000_000_000
  const OUTPUT_DRAIN_AFTER_STOP: nat := 1_000_000_000
  const PROCESS_POLL_INTERVAL: nat := 10_000_000

  datatype Stream = Stdout | Stderr

  /** What a reader thread sends when it is done: a captured pipe or a read error. */
  type Outcome = Result<PipeReadResult, ReadError>
  datatype PipeEvent = PipeEvent(stream: Stream, outcome: Outcome)

  datatype Options = Options(timeout: Option<nat>, stdout: Capture, stderr: Capture, inheritedPipeIsError: bool)

  // ----- The world around the waiter -----

  /** A reader thread: the child had no such pipe; it is still reading; it has sent its one event; or it has died. */
  datatype Reader = Absent | Reading | Sent(outcome: Outcome) | Died

  datatype World = World(
    now: nat,
    stdout: Reader, stderr: Reader,
    channel: seq<PipeEvent>,
    received: set<Stream>,    // streams whose event has left the channel
    child: Option<int>,       // exit status, once the child has exited
    past: History)

  /** What the waiter's own calls have done. */
  datatype History = History(
    reaped: bool,             // a wait has reported the exit
    signalled: bool,          // the process tree has been told to stop
    stoppedAt: nat,           // when it was told so last
    stoppedOpen: bool,        // it was told so while a pipe was open
    exitSeen: Option<nat>,    // when a wait reported the exit of a child that was not signalled
    descendants: bool,        // a query has found descendants
    waitFailed: bool)         // a wait or a kill has returned an error

  function ReaderOf(w: World, s: Stream): Reader {
    match s case Stdout => w.stdout case Stderr => w.stderr
  }

  /** The stream's event, while it is in the channel. */
  function InChannel(w: World, s: Stream): seq<PipeEvent> {
    if ReaderOf(w, s).Sent? && s !in w.received then [PipeEvent(s, ReaderOf(w, s).outcome)] else []
  }

  /** Only a hard limit reports an excess, and it reports itself. */
  predicate Obeys(policy: Capture, r: Reader) {
    r.Sent? && r.outcome.Success? && r.outcome.value.exceededLimit.Some? ==>
      policy == HardLimit(r.outcome.value.exceededLimit.value)
  }

  predicate Consistent(w: World, o: Options) {
    (w.channel == InChannel(w, Stdout) + InChannel(w, Stderr) || w.channel == InChannel(w, Stderr) + InChannel(w, Stdout))
    && (forall s :: s in w.received ==> ReaderOf(w, s).Sent?)
    && Obeys(o.stdout, w.stdout) && Obeys(o.stderr, w.stderr)
    && (w.past.reaped ==> w.child.Some?) && (w.past.exitSeen.Some? ==> w.past.reaped && w.past.exitSeen.value <= w.now)
    && w.past.stoppedAt <= w.now
  }

  /** One thread can only go from reading to having sent or having died. */
  predicate ReaderEvolves(before: Reader, after: Reader) {
    before == after || (before.Reading? && (after.Sent? || after.Died?))
  }

  /** A reader has not been heard of yet. */
  predicate IsOpen(w: World) {
    (!w.stdout.Absent? && Stdout !in w.received) || (!w.stderr.Absent? && Stderr !in w.received)
  }

  function AfterStop(w: World): World {
    w.(past := w.past.(signalled := true, stoppedAt := w.now, stoppedOpen := w.past.stoppedOpen || IsOpen(w)))
  }

  /** A wait has failed, or it has told whether the child has exited. */
  function AfterWait(past: History, now: nat, exited: Result<bool, ReadError>): History {
    if exited.Failure? then past.(waitFailed := true)
    else if !exited.value then past
    else past.(reaped := true, exitSeen := if past.exitSeen.None? && !past.signalled then Some(now) else past.exitSeen)
  }

  /** What may happen while the waiter is not looking. The child exits no later than `exitBy`, if that is given. */
  predicate Evolves(w: World, next: World, o: Options, exitBy: Option<nat>) {
    w.now <= next.now
    && ReaderEvolves(w.stdout, next.stdout) && ReaderEvolves(w.stderr, next.stderr)
    && w.channel <= next.channel && next.received == w.received
    && (w.child.Some? ==> next.child == w.child)
    && (exitBy.Some? && exitBy.value <= next.now ==> next.child.Some?)
    && next.past == w.past
    && Consistent(next, o)
  }

  datatype Received = Event(event: PipeEvent) | Timeout | Disconnected

  class Environment {
    var w: World
    const options: Options
    const exitBy: Option<nat>

    constructor (w: World, options: Options, exitBy: Option<nat>)
      requires Consistent(w, options) && (exitBy.Some? && exitBy.value <= w.now ==> w.child.Some?)
      ensures this.w == w && this.options == options && this.exitBy == exitBy && Valid()
    {
      this.w := w;
      this.options := options;
      this.exitBy := exitBy;
    }

    predicate Valid()
      reads this
    {
      Consistent(w, options) && (exitBy.Some? && exitBy.value <= w.now ==> w.child.Some?)
    }

    /** The rest of the world runs for a while. */
    method Interfere()
      requires Valid()
      modifies this
      ensures Valid() && Evolves(old(w), w, options, exitBy)
    {
      var next: World := *;
      if Evolves(w, next, options, exitBy) {
        w := next;
      }
    }

    /** The rest of the world runs at least until `until`. */
    method Pass(until: nat)
      requires Valid()
      modifies this
      ensures Valid() && Evolves(old(w), w, options, exitBy) && until <= w.now
    {
      Interfere();
      if w.now < until {
        var status: int := *;
        w := w.(now := until, child := if w.child.None? then Some(status) else w.child);
      }
    }

    method Now() returns (t: nat)
      requires Valid()
      modifies this
      ensures Valid() && Evolves(old(w), w, options, exitBy) && t == w.now
    {
      Interfere();
      t := w.now;
    }

    method Pop() returns (event: PipeEvent)
      requires Valid() && w.channel != []
      modifies this
      ensures Valid() && event == old(w).channel[0] && event.stream !in old(w).received
      ensures ReaderOf(w, event.stream) == Sent(event.outcome)
      ensures w == old(w).(channel := old(w).channel[1..], received := old(w).received + {event.stream})
    {
      event := w.channel[0];
      w := w.(channel := w.channel[1..], received := w.received + {event.stream});
    }

    /** `try_recv`. */
    method TryReceive() returns (r: Option<PipeEvent>)
      requires Valid()
      modifies this
      ensures Valid() && exists between :: Evolves(old(w), between, options, exitBy) && Taken(between, w, r)
    {
      Interfere();
      ghost var between := w;
      if w.channel == [] {
        r := None;
      } else {
        var event := Pop();
        r := Some(event);
      }
      assert Taken(between, w, r);
    }

    /** `recv_timeout`: waits for the whole timeout unless an event comes or every sender is gone. */
    method ReceiveTimeout(timeout: nat) returns (r: Received)
      requires Valid()
      modifies this
      ensures Valid() && exists between ::
                Evolves(old(w), between, options, exitBy)
                && Taken(between, w, if r.Event? then Some(r.event) else None)
      ensures r.Timeout? ==> old(w).now + timeout <= w.now
      ensures r.Disconnected? ==> w.channel == [] && !w.stdout.Reading? && !w.stderr.Reading?
    {
      var start := w.now;
      Interfere();
      ghost var between := w;
      if w.channel != [] {
        var event := Pop();
        r := Event(event);
        assert Taken(between, w, Some(event));
      } else {
        var sendersGone: bool := *;
        if sendersGone && !w.stdout.Reading? && !w.stderr.Reading? {
          r := Disconnected;
          assert Taken(between, w, None);
        } else {
          Pass(start + timeout);
          r := Timeout;
          assert Evolves(old(w), w, options, exitBy) && Taken(w, w, None);
        }
      }
    }

    /** `try_wait`, which may fail. */
    method TryWait() returns (r: Result<Option<int>, ReadError>)
      requires Valid()
      modifies this
      ensures Valid()
      ensures Evolves(old(w), w.(past := old(w).past), options, exitBy)
      ensures w.past == AfterWait(old(w).past, w.now, if r.Success? then Success(r.value.Some?) else Failure(r.error))
      ensures r.Success? ==> r.value == w.child
    {
      Interfere();
      var failed: bool := *;
      if failed {
        w := w.(past := AfterWait(w.past, w.now, Failure(ReadError)));
        return Failure(ReadError);
      }
      w := w.(past := AfterWait(w.past, w.now, Success(w.child.Some?)));
      return Success(w.child);
    }

    /** `process_tree_has_descendants`: any answer. */
    method HasDescendants() returns (b: bool)
      requires Valid()
      modifies this
      ensures Valid() && Evolves(old(w), w.(past := old(w).past), options, exitBy)
      ensures w.past == old(w).past.(descendants := old(w).past.descendants || b)
    {
      Interfere();
      b := *;
      w := w.(past := w.past.(descendants := w.past.descendants || b));
    }

    /** `stop_process_tree`. */
    method StopTree()
      requires Valid()
      modifies this
      ensures Valid() && Evolves(AfterStop(old(w)), w, options, exitBy)
    {
      w := AfterStop(w);
      Interfere();
    }

    /** `kill` and `wait`, either of which may fail. */
    method KillAndReap() returns (r: Result<(), ReadError>)
      requires Valid()
      modifies this
      ensures Valid()
      ensures Evolves(old(w), w.(past := old(w).past), options, exitBy)
      ensures w.past == if r.Success? then old(w).past.(reaped := true) else old(w).past.(waitFailed := true)
    {
      Interfere();
      var failed: bool := *;
      if failed {
        w := w.(past := w.past.(waitFailed := true));
        return Failure(ReadError);
      }
      var status: int := *;
      w := w.(child := if w.child.None? then Some(status) else w.child, past := w.past.(reaped := true));
      return Success(());
    }
  }

  /** The waiter has taken the first event of the channel, if the result is an event. */
  predicate Taken(before: World, after: World, r: Option<PipeEvent>) {
    match r
    case None => after == before
    case Some(event) =>
      before.channel != [] && event == before.channel[0] && event.stream !in before.received
      && ReaderOf(before, event.stream) == Sent(event.outcome)
      && after == before.(channel := before.channel[1..], received := before.received + {event.stream})
  }

  // ----- The waiter's view of the outputs -----

  datatype WaitError =
    | ReadFailed(failed: Stream)
    | WaitFailed
    | TimedOut(timeout: nat, stdout: seq<Byte>, stderr: seq<Byte>)
    | OutputLimit(stream: Stream, limit: nat)
    | InheritedPipe

  datatype Output = Output(status: int, stdout: seq<Byte>, stderr: seq<Byte>)

  datatype Outputs = Outputs(stdout: Option<seq<Byte>>, stderr: Option<seq<Byte>>)

  function OutputOf(o: Outputs, s: Stream): Option<seq<Byte>> {
    match s case Stdout => o.stdout case Stderr => o.stderr
  }

  function WithOutput(o: Outputs, s: Stream, bytes: seq<Byte>): Outputs {
    match s case Stdout => o.(stdout := Some(bytes)) case Stderr => o.(stderr := Some(bytes))
  }

  predicate Complete(o: Outputs) { o.stdout.Some? && o.stderr.Some? }

  function BytesOf(outcome: Outcome): seq<Byte> {
    match outcome case Success(read) => read.bytes case Failure(_) => []
  }

  /** The reader read its whole pipe within its limit. */
  predicate Clean(outcome: Outcome) {
    outcome.Success? && outcome.value.exceededLimit.None?
  }

  /** The error that an event stands for. */
  function EventError(event: PipeEvent): Option<WaitError> {
    match event.outcome
    case Failure(_) => Some(ReadFailed(event.stream))
    case Success(read) =>
      if read.exceededLimit.Some? then Some(OutputLimit(event.stream, read.exceededLimit.value)) else None
  }

  /** The stream's output is what its reader sent (nothing, when there was no pipe), and it is known as soon as the
      event has been received and is not still pending. */
  predicate Tracks(w: World, o: Outputs, pending: Option<PipeEvent>, clean: bool, s: Stream) {
    var r := ReaderOf(w, s);
    var isPending := pending.Some? && pending.value.stream == s;
    (isPending ==> s in w.received && r == Sent(pending.value.outcome) && OutputOf(o, s).None?)
    && match OutputOf(o, s)
       case Some(bytes) =>
         (r.Absent? && bytes == [])
         || (r.Sent? && s in w.received && bytes == BytesOf(r.outcome) && (clean ==> Clean(r.outcome)))
       case None => !r.Absent? && (s in w.received ==> isPending)
  }

  predicate TracksBoth(w: World, o: Outputs, pending: Option<PipeEvent>, clean: bool) {
    Tracks(w, o, pending, clean, Stdout) && Tracks(w, o, pending, clean, Stderr)
  }

  /** What stays true of the world whatever else happens. */
  predicate Later(w: World, next: World) {
    w.now <= next.now && ReaderEvolves(w.stdout, next.stdout) && ReaderEvolves(w.stderr, next.stderr)
    && w.received <= next.received && (w.child.Some? ==> next.child == w.child) && LaterHistory(w.past, next.past)
  }

  predicate LaterHistory(past: History, next: History) {
    (past.reaped ==> next.reaped) && (past.signalled ==> next.signalled) && past.stoppedAt <= next.stoppedAt
    && (past.stoppedOpen ==> next.stoppedOpen) && (past.exitSeen.Some? ==> next.exitSeen == past.exitSeen)
    && (past.descendants ==> next.descendants) && (past.waitFailed ==> next.waitFailed)
  }

  /** An error that the waiter reports about a stream is what the stream's reader sent. */
  predicate Justified(w: World, e: WaitError) {
    match e
    case ReadFailed(s) => ReaderOf(w, s).Sent? && ReaderOf(w, s).outcome.Failure?
    case OutputLimit(s, limit) =>
      ReaderOf(w, s).Sent? && ReaderOf(w, s).outcome.Success? && ReaderOf(w, s).outcome.value.exceededLimit == Some(limit)
    case _ => true
  }

  /** `accept_pipe_event`. */
  method AcceptPipeEvent(event: PipeEvent, outputs: Outputs) returns (next: Outputs, error: Option<WaitError>)
    ensures next == WithOutput(outputs, event.stream, BytesOf(event.outcome))
    ensures error == EventError(event)
  {
    match event.outcome {
      case Failure(_) =>
        next := WithOutput(outputs, event.stream, []);
        error := Some(ReadFailed(event.stream));
      case Success(read) =>
        next := WithOutput(outputs, event.stream, read.bytes);
        error := if read.exceededLimit.Some? then Some(OutputLimit(event.stream, read.exceededLimit.value)) else None;
    }
  }

  lemma AcceptingTracks(w: World, o: Outputs, event: PipeEvent, clean: bool)
    requires TracksBoth(w, o, Some(event), clean)
    ensures TracksBoth(w, WithOutput(o, event.stream, BytesOf(event.outcome)), None, clean && EventError(event).None?)
    ensures EventError(event).Some? ==> Justified(w, EventError(event).value)
  {
  }

  /** Number of streams whose event may still come. */
  function Outstanding(w: World): nat {
    (if Stdout in w.received then 0 else 1) + (if Stderr in w.received then 0 else 1)
  }

  /** One more step of the world, during which at most one event has been received. */
  predicate Steps(w: World, next: World, taken: Option<PipeEvent>) {
    Waits(w, next)
    && match taken
       case None => next.received == w.received
       case Some(event) =>
         event.stream !in w.received && next.received == w.received + {event.stream}
         && ReaderOf(next, event.stream) == Sent(event.outcome)
  }

  function EventOf(r: Received): Option<PipeEvent> {
    if r.Event? then Some(r.event) else None
  }

  method Receive(env: Environment, timeout: nat) returns (r: Received)
    requires env.Valid()
    modifies env
    ensures env.Valid() && Steps(old(env.w), env.w, EventOf(r))
    ensures r.Timeout? ==> old(env.w).now + timeout <= env.w.now
    ensures r.Disconnected? ==> NoReaderLeft(env.w)
  {
    ghost var w0 := env.w;
    r := env.ReceiveTimeout(timeout);
    ghost var between :| Evolves(w0, between, env.options, env.exitBy) && Taken(between, env.w, EventOf(r));
  }

  lemma SteppingTracks(w: World, next: World, taken: Option<PipeEvent>, o: Outputs, clean: bool)
    requires TracksBoth(w, o, None, clean) && Steps(w, next, taken)
    ensures TracksBoth(next, o, taken, clean)
    ensures Outstanding(next) == Outstanding(w) - (if taken.Some? then 1 else 0)
  {
  }

  /** The outputs and the first error while events are being collected. */
  predicate Collecting(w: World, o: Outputs, pending: Option<PipeEvent>, firstError: Option<WaitError>, clean: bool) {
    TracksBoth(w, o, pending, clean && firstError.None?)
    && (firstError.Some? ==> (firstError.value.ReadFailed? || firstError.value.OutputLimit?) && Justified(w, firstError.value))
  }

  lemma SteppingCollects(w: World, next: World, taken: Option<PipeEvent>, o: Outputs, firstError: Option<WaitError>, clean: bool)
    requires Collecting(w, o, None, firstError, clean) && Steps(w, next, taken)
    ensures Collecting(next, o, taken, firstError, clean)
    ensures Outstanding(next) == Outstanding(w) - (if taken.Some? then 1 else 0)
  {
    SteppingTracks(w, next, taken, o, clean && firstError.None?);
  }

  /** The wait goes on: nothing that only the waiter does has happened, except that events may have been received. */
  predicate Waits(w: World, next: World) {
    Later(w, next) && next.past == w.past
  }

  /** Every event that will come has been received. */
  predicate NoReaderLeft(w: World) {
    forall s :: !ReaderOf(w, s).Absent? && s !in w.received ==> ReaderOf(w, s).Died?
  }

  /** One round of collecting: the event's output is kept, and its error only if it is the first. */
  method CollectOne(env: Environment, before: Outputs, known: Option<WaitError>, timeout: nat, ghost clean: bool)
    returns (outputs: Outputs, firstError: Option<WaitError>, got: bool, ghost event: Option<PipeEvent>)
    requires env.Valid() && Collecting(env.w, before, None, known, clean)
    modifies env
    ensures env.Valid() && Waits(old(env.w), env.w) && Collecting(env.w, outputs, None, firstError, clean)
    ensures got || old(env.w).now + timeout <= env.w.now || NoReaderLeft(env.w)
    ensures got == event.Some? && Outstanding(env.w) == Outstanding(old(env.w)) - (if got then 1 else 0)
    ensures match event
            case None => outputs == before && firstError == known
            case Some(e) =>
              outputs == WithOutput(before, e.stream, BytesOf(e.outcome))
              && firstError == if known.Some? then known else EventError(e)
  {
    outputs, firstError := before, known;
    var received := Receive(env, timeout);
    event := EventOf(received);
    SteppingCollects(old(env.w), env.w, event, before, known, clean);
    got := received.Event?;
    if got {
      AcceptingTracks(env.w, before, received.event, clean && known.None?);
      var error: Option<WaitError>;
      outputs, error := AcceptPipeEvent(received.event, before);
      firstError := if known.Some? then known else error;
    }
  }

  /** The outputs after these events. */
  function OutputsAfter(before: Outputs, events: seq<PipeEvent>): Outputs {
    if events == [] then before
    else
      var last := events[|events| - 1];
      WithOutput(OutputsAfter(before, events[..|events| - 1]), last.stream, BytesOf(last.outcome))
  }

  /** The error of the first of these events that stands for one. */
  function FirstErrorOf(events: seq<PipeEvent>): Option<WaitError> {
    if events == [] then None
    else
      var n := |events| - 1;
      if FirstErrorOf(events[..n]).Some? then FirstErrorOf(events[..n]) else EventError(events[n])
  }

  /** It is the error of an event, and no event before that one stands for an error. */
  lemma {:induction false} FirstErrorIsFirst(events: seq<PipeEvent>, e: WaitError)
    ensures FirstErrorOf(events) == Some(e)
        <==> exists i | 0 <= i < |events| ::
               EventError(events[i]) == Some(e) && (forall j | 0 <= j < i :: EventError(events[j]) == None)
  {
    if events != [] {
      var init := events[..|events| - 1];
      FirstErrorIsFirst(init, e);
      if FirstErrorOf(init).Some? {
        FirstErrorIsFirst(init, FirstErrorOf(init).value);
      } else {
        NoError(init);
      }
    }
  }

  lemma {:induction false} NoError(events: seq<PipeEvent>)
    ensures FirstErrorOf(events).None? ==> forall e <- events :: EventError(e) == None
  {
    if events != [] { NoError(events[..|events| - 1]); }
  }

  lemma OneMoreEvent(before: Outputs, events: seq<PipeEvent>, e: PipeEvent)
    ensures OutputsAfter(before, events + [e]) == WithOutput(OutputsAfter(before, events), e.stream, BytesOf(e.outcome))
    ensures FirstErrorOf(events + [e]) == if FirstErrorOf(events).Some? then FirstErrorOf(events) else EventError(e)
  {
    assert (events + [e])[..|events|] == events;
  }

  lemma WaitsTransitive(a: World, b: World, c: World)
    requires Waits(a, b) && Waits(b, c)
    ensures Waits(a, c)
  {
  }

  /** These events have been received since `w0`, and nothing else has happened to the outputs. */
  predicate Collected(w0: World, w: World, before: Outputs, outputs: Outputs, firstError: Option<WaitError>,
                      events: seq<PipeEvent>) {
    Waits(w0, w) && outputs == OutputsAfter(before, events) && firstError == FirstErrorOf(events)
    && |events| == Outstanding(w0) - Outstanding(w)
  }

  /** A round of collecting, and the time after it. */
  method CollectRound(env: Environment, before: Outputs, known: Option<WaitError>, timeout: nat, ghost clean: bool,
                      ghost w0: World, ghost first: Outputs, ghost earlier: seq<PipeEvent>)
    returns (outputs: Outputs, firstError: Option<WaitError>, got: bool, now: nat, ghost events: seq<PipeEvent>)
    requires env.Valid() && Collecting(env.w, before, None, known, clean) && Collected(w0, env.w, first, before, known, earlier)
    modifies env
    ensures env.Valid() && Collecting(env.w, outputs, None, firstError, clean)
    ensures Collected(w0, env.w, first, outputs, firstError, events)
    ensures if got then now <= env.w.now && Outstanding(env.w) < Outstanding(old(env.w))
            else old(env.w).now + timeout <= env.w.now || NoReaderLeft(env.w)
  {
    ghost var event: Option<PipeEvent>;
    outputs, firstError, got, event := CollectOne(env, before, known, timeout, clean);
    WaitsTransitive(w0, old(env.w), env.w);
    now, events := 0, earlier;
    if got {
      OneMoreEvent(first, earlier, event.value);
      events := earlier + [event.value];
      now := ReadClock(env, outputs, firstError, clean, w0, first, events);
    }
  }

  method ReadClock(env: Environment, ghost outputs: Outputs, ghost firstError: Option<WaitError>, ghost clean: bool,
                   ghost w0: World, ghost before: Outputs, ghost events: seq<PipeEvent>)
    returns (now: nat)
    requires env.Valid() && Collecting(env.w, outputs, None, firstError, clean)
    requires Collected(w0, env.w, before, outputs, firstError, events)
    modifies env
    ensures env.Valid() && Collecting(env.w, outputs, None, firstError, clean)
    ensures Collected(w0, env.w, before, outputs, firstError, events)
    ensures now == env.w.now && old(env.w).now <= now && env.w.received == old(env.w).received
  {
    now := env.Now();
    SteppingCollects(old(env.w), env.w, None, outputs, firstError, clean);
    WaitsTransitive(w0, old(env.w), env.w);
  }

  /** `collect_pipe_events`: receives for a limited time, remembers the first error and keeps going. */
  method CollectPipeEvents(env: Environment, before: Outputs, timeout: nat, ghost clean: bool)
    returns (outputs: Outputs, firstError: Option<WaitError>, ghost events: seq<PipeEvent>)
    requires env.Valid() && TracksBoth(env.w, before, None, clean)
    modifies env
    ensures env.Valid() && Collecting(env.w, outputs, None, firstError, clean)
    ensures Collected(old(env.w), env.w, before, outputs, firstError, events)
    ensures Complete(outputs) || old(env.w).now + timeout <= env.w.now || NoReaderLeft(env.w)
  {
    ghost var w0 := env.w;
    outputs, firstError, events := before, None, [];
    var now := ReadClock(env, outputs, firstError, clean, w0, before, events);
    var deadline := now + timeout;
    while !Complete(outputs) && now < deadline
      invariant env.Valid() && Collecting(env.w, outputs, None, firstError, clean)
      invariant Collected(w0, env.w, before, outputs, firstError, events)
      invariant w0.now + timeout <= deadline && now <= env.w.now
      decreases Outstanding(env.w)
    {
      var got: bool;
      outputs, firstError, got, now, events := CollectRound(env, outputs, firstError, deadline - now, clean, w0, before, events);
      if !got { break; }
    }
  }

  /** `terminate_process_tree`: stops and reaps, unless a wait fails. */
  method TerminateProcessTree(env: Environment) returns (r: Result<(), WaitError>)
    requires env.Valid()
    modifies env
    ensures env.Valid() && Later(old(env.w), env.w) && env.w.past.signalled && env.w.received == old(env.w).received
    ensures old(env.w).now <= env.w.past.stoppedAt && env.w.past.exitSeen == old(env.w).past.exitSeen
    ensures env.w.past.descendants == old(env.w).past.descendants
    ensures r.Success? ==> env.w.past.reaped
    ensures r.Failure? ==> r.error == WaitFailed && env.w.past.waitFailed
  {
    env.StopTree();
    var waited := env.TryWait();
    if waited.Failure? { return Failure(WaitFailed); }
    if waited.value.None? {
      var killed := env.KillAndReap();
      if killed.Failure? { return Failure(WaitFailed); }
    }
    return Success(());
  }

  // ----- The wait loop -----

  method ReceiveNow(env: Environment) returns (r: Option<PipeEvent>)
    requires env.Valid()
    modifies env
    ensures env.Valid() && Steps(old(env.w), env.w, r)
  {
    ghost var w0 := env.w;
    r := env.TryReceive();
    ghost var between :| Evolves(w0, between, env.options, env.exitBy) && Taken(between, env.w, r);
  }

  /** Accepts an event and takes the next one, if there was no error. */
  method AcceptOne(env: Environment, before: Outputs, event: PipeEvent, ghost w0: World)
    returns (outputs: Outputs, error: Option<WaitError>, next: Option<PipeEvent>)
    requires env.Valid() && Waits(w0, env.w) && Collecting(env.w, before, Some(event), None, true)
    modifies env
    ensures env.Valid() && Waits(w0, env.w) && Collecting(env.w, outputs, next, error, true)
    ensures error == EventError(event) && (error.Some? ==> next.None?)
    ensures Outstanding(env.w) == Outstanding(old(env.w)) - (if next.Some? then 1 else 0)
  {
    ghost var w1 := env.w;
    AcceptingTracks(w1, before, event, true);
    next := None;
    outputs, error := AcceptPipeEvent(event, before);
    if error.None? {
      next := ReceiveNow(env);
      SteppingCollects(w1, env.w, next, outputs, None, true);
      WaitsTransitive(w0, w1, env.w);
    }
  }

  /** Accepts the pending event and everything that is in the channel, up to the first error. */
  method AcceptQueued(env: Environment, before: Outputs, pending: Option<PipeEvent>)
    returns (outputs: Outputs, error: Option<WaitError>)
    requires env.Valid() && TracksBoth(env.w, before, pending, true)
    modifies env
    ensures env.Valid() && Waits(old(env.w), env.w) && Collecting(env.w, outputs, None, error, true)
  {
    ghost var w0 := env.w;
    outputs, error := before, None;
    var next := pending;
    if next.None? {
      next := ReceiveNow(env);
      SteppingCollects(w0, env.w, next, outputs, None, true);
    }
    while next.Some?
      invariant env.Valid() && Waits(w0, env.w) && Collecting(env.w, outputs, next, error, true)
      invariant error.Some? ==> next.None?
      decreases Outstanding(env.w), next.Some?
    {
      outputs, error, next := AcceptOne(env, outputs, next.value, w0);
    }
  }

  /** After an error or a timeout: stops and reaps the tree, then collects for a second. */
  method TerminateAndCollect(env: Environment, before: Outputs) returns (outputs: Outputs, r: Result<(), WaitError>)
    requires env.Valid() && TracksBoth(env.w, before, None, false)
    modifies env
    ensures env.Valid() && Later(old(env.w), env.w)
    ensures r.Failure? ==> r.error == WaitFailed && env.w.past.waitFailed
    ensures r.Success? ==>
              env.w.past.signalled && env.w.past.reaped && TracksBoth(env.w, outputs, None, false) && Drained(env.w)
              && env.w.past.exitSeen == old(env.w).past.exitSeen
  {
    outputs := before;
    r := TerminateProcessTree(env);
    if r.Failure? { return; }
    var ignored: Option<WaitError>;
    ghost var events: seq<PipeEvent>;
    outputs, ignored, events := CollectPipeEvents(env, before, OUTPUT_DRAIN_AFTER_STOP, false);
  }

  /** The bytes are all that the stream's reader sent, without an error or an excess. */
  predicate WholeOutput(w: World, s: Stream, bytes: seq<Byte>) {
    var r := ReaderOf(w, s);
    (r.Absent? && bytes == []) || (r.Sent? && Clean(r.outcome) && bytes == r.outcome.value.bytes)
  }

  /** The bytes are what the stream's reader sent, as far as that has been received. */
  predicate ReceivedOutput(w: World, s: Stream, bytes: seq<Byte>) {
    bytes == if ReaderOf(w, s).Sent? && s in w.received then BytesOf(ReaderOf(w, s).outcome) else []
  }

  /** Since the last stop, every event has been received that came within a second. */
  predicate Drained(w: World) {
    forall s :: !ReaderOf(w, s).Absent? && s !in w.received ==>
      ReaderOf(w, s).Died? || w.past.stoppedAt + OUTPUT_DRAIN_AFTER_STOP <= w.now
  }

  /** The child was seen to exit, and then a descendant was found or the grace passed. */
  predicate MayStopExited(w: World) {
    w.past.exitSeen.Some? && (w.past.descendants || w.past.exitSeen.value + OUTPUT_DRAIN_GRACE <= w.now)
  }

  predicate LimitOf(o: Options, s: Stream, limit: nat) {
    (match s case Stdout => o.stdout case Stderr => o.stderr) == HardLimit(limit)
  }

  /** Safety: what each result means about the world, and how often the tree of an exited child was stopped. */
  predicate Explained(w: World, o: Options, started: nat, r: Result<Output, WaitError>, stops: nat) {
    stops <= 1 && (stops == 1 ==> MayStopExited(w) && w.past.stoppedOpen)
    && match r
       case Success(out) =>
         w.past.reaped && w.child == Some(out.status)
         && WholeOutput(w, Stdout, out.stdout) && WholeOutput(w, Stderr, out.stderr)
         && (w.past.signalled <==> stops == 1) && (w.past.signalled ==> !o.inheritedPipeIsError)
       case Failure(TimedOut(timeout, stdout, stderr)) =>
         w.past.signalled && w.past.reaped && w.past.exitSeen.None? && Drained(w)
         && o.timeout == Some(timeout) && started + timeout <= w.now && stops == 0
         && ReceivedOutput(w, Stdout, stdout) && ReceivedOutput(w, Stderr, stderr)
       case Failure(OutputLimit(s, limit)) =>
         w.past.signalled && w.past.reaped && Justified(w, OutputLimit(s, limit)) && LimitOf(o, s, limit)
       case Failure(ReadFailed(s)) => w.past.signalled && w.past.reaped && Justified(w, ReadFailed(s))
       case Failure(InheritedPipe) =>
         w.past.signalled && w.past.reaped && stops == 1 && Drained(w)
         && (forall s :: s in w.received ==> ReaderOf(w, s).Sent? && Clean(ReaderOf(w, s).outcome))
         && (o.inheritedPipeIsError || exists s :: !ReaderOf(w, s).Absent? && s !in w.received)
       case Failure(WaitFailed) => w.past.waitFailed
  }

  /** Waits for one poll interval, for an event, or for the news that every reader is gone. */
  method Poll(env: Environment, connected: bool) returns (pending: Option<PipeEvent>, stillConnected: bool)
    requires env.Valid()
    modifies env
    ensures env.Valid() && Steps(old(env.w), env.w, pending)
    ensures stillConnected ==> connected
    ensures pending.Some? || stillConnected != connected || old(env.w).now + PROCESS_POLL_INTERVAL <= env.w.now
  {
    pending, stillConnected := None, connected;
    if connected {
      var received := Receive(env, PROCESS_POLL_INTERVAL);
      pending := EventOf(received);
      stillConnected := !received.Disconnected?;
    } else {
      env.Pass(env.w.now + PROCESS_POLL_INTERVAL);
    }
  }

  /** Rounds of polling that ended early: an event came, or the channel closed. */
  function EarlyRounds(w: World, connected: bool): nat {
    2 - Outstanding(w) + (if connected then 0 else 1)
  }

  /** Polling rounds so far, how many of them came before the current phase, and when the phase began. */
  datatype Pace = Pace(polls: nat, base: nat, since: nat)

  /** In the current phase every round but the early ones took a whole interval. A phase after the exit began no
      earlier than the wait that reported it. */
  predicate Paced(w: World, connected: bool, pace: Pace) {
    pace.base <= pace.polls && pace.since <= w.now && (w.past.exitSeen.Some? ==> w.past.exitSeen.value <= pace.since)
    && (pace.polls - pace.base) * PROCESS_POLL_INTERVAL
       <= w.now - pace.since + EarlyRounds(w, connected) * PROCESS_POLL_INTERVAL
  }

  /** How long the waiter can be waiting for the child: until the timeout or the exit, whichever comes first. */
  function Patience(o: Options, exitBy: Option<nat>, started: nat): nat
    requires o.timeout.Some? || exitBy.Some?
  {
    var untilExit := if exitBy.Some? && started < exitBy.value then exitBy.value - started else 0;
    if o.timeout.None? || (exitBy.Some? && untilExit < o.timeout.value) then untilExit else o.timeout.value
  }

  /** What holds between any two steps of the wait loop. */
  predicate Waiting(w: World, o: Options, status: Option<int>, outputs: Outputs, pending: Option<PipeEvent>, stops: nat) {
    TracksBoth(w, outputs, pending, true)
    && (match status
        case None => !w.past.reaped && w.past.exitSeen.None? && stops == 0
        case Some(code) => w.past.reaped && w.past.exitSeen.Some? && w.child == status)
    && stops <= 1 && (w.past.signalled <==> stops == 1) && (stops == 1 ==> MayStopExited(w) && w.past.stoppedOpen)
    && (stops == 1 ==> Complete(outputs) && !o.inheritedPipeIsError)
  }

  lemma WaitingGoesOn(w: World, next: World, o: Options, status: Option<int>, outputs: Outputs, taken: Option<PipeEvent>, stops: nat)
    requires Waiting(w, o, status, outputs, None, stops) && Steps(w, next, taken)
    ensures Waiting(next, o, status, outputs, taken, stops)
  {
    SteppingTracks(w, next, taken, outputs, true);
  }

  /** Later rounds are paced if earlier ones were. */
  lemma StaysPaced(w: World, next: World, connected: bool, pace: Pace)
    requires Paced(w, connected, pace) && Later(w, next) && next.past.exitSeen == w.past.exitSeen
    ensures Paced(next, connected, pace)
  {
  }

  /** Reads the clock while waiting. */
  method Glance(env: Environment, ghost status: Option<int>, ghost outputs: Outputs, ghost stops: nat, ghost connected: bool,
                ghost pace: Pace)
    returns (now: nat)
    requires env.Valid() && Waiting(env.w, env.options, status, outputs, None, stops) && Paced(env.w, connected, pace)
    modifies env
    ensures env.Valid() && Waiting(env.w, env.options, status, outputs, None, stops) && Paced(env.w, connected, pace)
    ensures now == env.w.now && old(env.w).now <= now
  {
    now := env.Now();
    WaitingGoesOn(old(env.w), env.w, env.options, status, outputs, None, stops);
  }

  /** The first step of a round: an error stops and reaps the tree and is returned. */
  method Drain(env: Environment, before: Outputs, pending: Option<PipeEvent>, ghost started: nat, ghost status: Option<int>,
               ghost stops: nat, ghost connected: bool, ghost pace: Pace)
    returns (outputs: Outputs, failure: Option<WaitError>)
    requires env.Valid() && Waiting(env.w, env.options, status, before, pending, stops) && Paced(env.w, connected, pace)
    modifies env
    ensures env.Valid()
    ensures match failure
            case None => Waiting(env.w, env.options, status, outputs, None, stops) && Paced(env.w, connected, pace)
            case Some(e) => Explained(env.w, env.options, started, Failure(e), stops)
  {
    outputs, failure := AcceptQueued(env, before, pending);
    if failure.None? {
      StaysPaced(old(env.w), env.w, connected, pace);
    } else {
      ghost var w0 := env.w;
      var ended: Result<(), WaitError>;
      outputs, ended := TerminateAndCollect(env, outputs);
      if ended.Failure? { failure := Some(ended.error); }
    }
  }

  lemma KnowsExit(w0: World, w: World, o: Options, outputs: Outputs)
    requires Waiting(w0, o, None, outputs, None, 0) && Steps(w0, w.(past := w0.past), None)
    requires w.past == AfterWait(w0.past, w.now, Success(w.child.Some?))
    ensures Waiting(w, o, w.child, outputs, None, 0) && Later(w0, w) && (w.child.Some? ==> w.past.exitSeen == Some(w.now))
  {
    SteppingTracks(w0, w.(past := w0.past), None, outputs, true);
  }

  method Ask(env: Environment, ghost outputs: Outputs) returns (failed: bool, status: Option<int>)
    requires env.Valid() && Waiting(env.w, env.options, None, outputs, None, 0)
    modifies env
    ensures env.Valid() && Later(old(env.w), env.w)
    ensures if failed then env.w.past.waitFailed
            else Waiting(env.w, env.options, status, outputs, None, 0)
                 && if status.Some? then env.w.past.exitSeen == Some(env.w.now)
                    else env.exitBy.Some? ==> env.w.now < env.exitBy.value
  {
    var waited := env.TryWait();
    failed, status := waited.Failure?, if waited.Success? then waited.value else None;
    if !failed { KnowsExit(old(env.w), env.w, env.options, outputs); }
  }

  /** Asks whether the child has exited; the drain grace begins when it has. */
  method CheckExit(env: Environment, ghost outputs: Outputs, ghost connected: bool, ghost pace: Pace)
    returns (failed: bool, status: Option<int>, drainDeadline: Option<nat>, ghost next: Pace)
    requires env.Valid() && Waiting(env.w, env.options, None, outputs, None, 0) && Paced(env.w, connected, pace)
    modifies env
    ensures env.Valid()
    ensures failed ==> env.w.past.waitFailed
    ensures !failed ==> Waiting(env.w, env.options, status, outputs, None, 0) && Paced(env.w, connected, next)
    ensures !failed && status.None? ==>
              next == pace && drainDeadline == None && (env.exitBy.Some? ==> env.w.now < env.exitBy.value)
    ensures !failed && status.Some? ==>
              next.polls == next.base == pace.polls && drainDeadline == Some(next.since + OUTPUT_DRAIN_GRACE)
              && env.w.past.exitSeen.value <= next.since
  {
    drainDeadline, next := None, pace;
    failed, status := Ask(env, outputs);
    if !failed && status.Some? {
      next := Pace(pace.polls, pace.polls, env.w.now);
      var now := Glance(env, status, outputs, 0, connected, next);
      drainDeadline := Some(now + OUTPUT_DRAIN_GRACE);
      next := next.(since := now);
    }
  }

  /** Once the timeout has passed, stops and reaps the tree and keeps what has been read. */
  method CheckDeadline(env: Environment, deadline: nat, before: Outputs, ghost started: nat, ghost connected: bool, ghost pace: Pace)
    returns (failure: Option<WaitError>)
    requires env.Valid() && Waiting(env.w, env.options, None, before, None, 0) && Paced(env.w, connected, pace)
    requires env.options.timeout.Some? && started + env.options.timeout.value <= deadline
    modifies env
    ensures env.Valid()
    ensures match failure
            case None =>
              Waiting(env.w, env.options, None, before, None, 0) && Paced(env.w, connected, pace) && env.w.now < deadline
            case Some(e) => Explained(env.w, env.options, started, Failure(e), 0)
  {
    failure := None;
    var now := Glance(env, None, before, 0, connected, pace);
    if deadline <= now {
      var outputs, ended := TerminateAndCollect(env, before);
      failure := Some(if ended.Failure? then WaitFailed
                      else TimedOut(env.options.timeout.value, UnwrapOrDefault(outputs.stdout), UnwrapOrDefault(outputs.stderr)));
    }
  }

  function UnwrapOrDefault(o: Option<seq<Byte>>): seq<Byte> {
    match o case Some(bytes) => bytes case None => []
  }

  /** Stops what is left of the tree and collects for a second. */
  method StopAndCollect(env: Environment, before: Outputs) returns (outputs: Outputs, firstError: Option<WaitError>)
    requires env.Valid() && TracksBoth(env.w, before, None, true)
    modifies env
    ensures env.Valid() && Stopped(old(env.w), env.w) && Drained(env.w)
    ensures Collecting(env.w, outputs, None, firstError, true)
  {
    ghost var w0 := env.w;
    env.StopTree();
    ghost var w1 := env.w;
    SteppingTracks(w0, w1.(past := w0.past), None, before, true);
    ghost var events: seq<PipeEvent>;
    outputs, firstError, events := CollectPipeEvents(env, before, OUTPUT_DRAIN_AFTER_STOP, true);
  }

  /** The tree has been told to stop, and no wait has been made since. */
  predicate Stopped(w: World, next: World) {
    Later(w, next) && next.past.signalled && next.past.reaped == w.past.reaped && next.past.exitSeen == w.past.exitSeen
    && (IsOpen(w) ==> next.past.stoppedOpen)
  }

  /** The child has exited but a pipe is still open: what is left of the tree is stopped. */
  method StopExited(env: Environment, status: int, before: Outputs, ghost started: nat, ghost connected: bool, ghost pace: Pace)
    returns (outputs: Outputs, failure: Option<WaitError>)
    requires env.Valid() && Waiting(env.w, env.options, Some(status), before, None, 0) && Paced(env.w, connected, pace)
    requires MayStopExited(env.w) && !Complete(before)
    modifies env
    ensures env.Valid()
    ensures match failure
            case None =>
              Waiting(env.w, env.options, Some(status), outputs, None, 1) && Paced(env.w, connected, pace) && Complete(outputs)
            case Some(e) => Explained(env.w, env.options, started, Failure(e), 1)
  {
    outputs, failure := StopAndCollect(env, before);
    StaysPaced(old(env.w), env.w, connected, pace);
    if failure.None? && (!Complete(outputs) || env.options.inheritedPipeIsError) {
      failure := Some(InheritedPipe);
    }
  }

  /** After the child has exited: stops the tree if a descendant is left or the grace is over. */
  method TendExited(env: Environment, status: int, drainDeadline: nat, before: Outputs, ghost started: nat,
                    ghost connected: bool, ghost pace: Pace)
    returns (outputs: Outputs, failure: Option<WaitError>, ghost stops: nat)
    requires env.Valid() && Waiting(env.w, env.options, Some(status), before, None, 0) && Paced(env.w, connected, pace)
    requires drainDeadline == pace.since + OUTPUT_DRAIN_GRACE && !Complete(before)
    modifies env
    ensures env.Valid() && stops <= 1
    ensures match failure
            case None =>
              Waiting(env.w, env.options, Some(status), outputs, None, stops) && Paced(env.w, connected, pace)
              && (stops == 0 ==> env.w.now < drainDeadline && outputs == before)
              && (stops == 1 ==> Complete(outputs))
            case Some(e) => Explained(env.w, env.options, started, Failure(e), stops)
  {
    outputs, failure, stops := before, None, 0;
    ghost var w0 := env.w;
    var descendants := env.HasDescendants();
    WaitingGoesOn(w0, env.w.(past := w0.past), env.options, Some(status), before, None, 0);
    StaysPaced(w0, env.w, connected, pace);
    if !descendants {
      var now := Glance(env, Some(status), outputs, 0, connected, pace);
      if now < drainDeadline { return; }
    }
    stops := 1;
    outputs, failure := StopExited(env, status, outputs, started, connected, pace);
  }

  /** The rounds before the child exited, and those after it, each fit their share of time. */
  predicate InTime(pace: Pace, status: Option<int>, stops: nat, patience: nat, drainDeadline: Option<nat>) {
    match status
    case None => pace.base == 0 && pace.polls * PROCESS_POLL_INTERVAL <= patience + 4 * PROCESS_POLL_INTERVAL
    case Some(_) =>
      drainDeadline == Some(pace.since + OUTPUT_DRAIN_GRACE) && pace.base <= pace.polls
      && pace.base * PROCESS_POLL_INTERVAL <= patience + 4 * PROCESS_POLL_INTERVAL
      && (pace.polls - pace.base) * PROCESS_POLL_INTERVAL
         <= OUTPUT_DRAIN_GRACE + (4 + stops) * PROCESS_POLL_INTERVAL
  }

  /** There is time left in the phase, or the stop has made this round the last. */
  predicate MayRest(pace: Pace, status: Option<int>, stops: nat, patience: nat, drainDeadline: Option<nat>) {
    InTime(pace, status, 0, patience, drainDeadline)
    && if stops == 1 then status.Some?
       else (pace.polls - pace.base) * PROCESS_POLL_INTERVAL
              < 3 * PROCESS_POLL_INTERVAL + (if status.None? then patience else OUTPUT_DRAIN_GRACE)
  }

  /** A round in which the output is not yet known: the timeout while the child runs, the grace after it has exited. */
  method Tend(env: Environment, status: Option<int>, deadline: Option<nat>, drainDeadline: Option<nat>, before: Outputs,
              ghost started: nat, ghost connected: bool, ghost pace: Pace)
    returns (outputs: Outputs, failure: Option<WaitError>, ghost stops: nat)
    requires env.Valid() && Waiting(env.w, env.options, status, before, None, 0) && Paced(env.w, connected, pace)
    requires env.options.timeout.Some? || env.exitBy.Some?
    requires match status
             case None =>
               deadline == (if env.options.timeout.Some? then Some(pace.since + env.options.timeout.value) else None)
               && started <= pace.since && (env.exitBy.Some? ==> env.w.now < env.exitBy.value)
             case Some(_) => drainDeadline.Some? && !Complete(before)
    requires InTime(pace, status, 0, Patience(env.options, env.exitBy, started), drainDeadline)
    modifies env
    ensures env.Valid()
    ensures match failure
            case None =>
              Waiting(env.w, env.options, status, outputs, None, stops) && Paced(env.w, connected, pace)
              && MayRest(pace, status, stops, Patience(env.options, env.exitBy, started), drainDeadline)
            case Some(e) => Explained(env.w, env.options, started, Failure(e), stops)
  {
    outputs, failure, stops := before, None, 0;
    if status.None? {
      if deadline.Some? {
        failure := CheckDeadline(env, deadline.value, outputs, started, connected, pace);
      }
    } else {
      outputs, failure, stops := TendExited(env, status.value, drainDeadline.value, outputs, started, connected, pace);
    }
  }

  /** The last step of a round. There is time left in the phase, or the stop has made this round the last. */
  method Rest(env: Environment, connected: bool, status: Option<int>, drainDeadline: Option<nat>, ghost outputs: Outputs,
              ghost stops: nat, ghost pace: Pace, ghost patience: nat)
    returns (pending: Option<PipeEvent>, stillConnected: bool, ghost next: Pace)
    requires env.Valid() && Waiting(env.w, env.options, status, outputs, None, stops) && Paced(env.w, connected, pace)
    requires MayRest(pace, status, stops, patience, drainDeadline)
    modifies env
    ensures env.Valid() && Waiting(env.w, env.options, status, outputs, pending, stops)
    ensures Paced(env.w, stillConnected, next) && next == pace.(polls := pace.polls + 1)
    ensures InTime(next, status, stops, patience, drainDeadline)
  {
    pending, stillConnected := Poll(env, connected);
    next := pace.(polls := pace.polls + 1);
    WaitingGoesOn(old(env.w), env.w, env.options, status, outputs, pending, stops);
  }

  /** A round in which the output is not yet known, after the events and the exit have been seen to. */
  method EndRound(env: Environment, connected: bool, status: Option<int>, deadline: Option<nat>, drainDeadline: Option<nat>,
                  before: Outputs, ghost started: nat, ghost pace: Pace)
    returns (outputs: Outputs, failure: Option<WaitError>, pending: Option<PipeEvent>, stillConnected: bool,
             ghost stops: nat, ghost next: Pace)
    requires env.Valid() && Waiting(env.w, env.options, status, before, None, 0) && Paced(env.w, connected, pace)
    requires env.options.timeout.Some? || env.exitBy.Some?
    requires status.None? ==>
               deadline == (if env.options.timeout.Some? then Some(pace.since + env.options.timeout.value) else None)
               && started <= pace.since && (env.exitBy.Some? ==> env.w.now < env.exitBy.value)
    requires status.Some? ==> !Complete(before)
    requires InTime(pace, status, 0, Patience(env.options, env.exitBy, started), drainDeadline)
    modifies env
    ensures env.Valid()
    ensures match failure
            case None =>
              Waiting(env.w, env.options, status, outputs, pending, stops) && Paced(env.w, stillConnected, next)
              && InTime(next, status, stops, Patience(env.options, env.exitBy, started), drainDeadline)
              && next == pace.(polls := pace.polls + 1)
            case Some(e) => Explained(env.w, env.options, started, Failure(e), stops)
  {
    pending, stillConnected, next := None, connected, pace;
    outputs, failure, stops := Tend(env, status, deadline, drainDeadline, before, started, connected, pace);
    if failure.None? {
      pending, stillConnected, next :=
        Rest(env, connected, status, drainDeadline, outputs, stops, pace, Patience(env.options, env.exitBy, started));
    }
  }

  predicate Fresh(w: World) {
    w.channel == [] && w.received == {} && w.past == History(false, false, 0, false, None, false, false)
    && forall s :: ReaderOf(w, s).Absent? || ReaderOf(w, s).Reading?
  }

  /** The readers have been started: a stream without a pipe has an empty output from the beginning. */
  method Begin(env: Environment) returns (outputs: Outputs, deadline: Option<nat>, ghost pace: Pace)
    requires env.Valid() && Fresh(env.w)
    modifies env
    ensures env.Valid() && Waiting(env.w, env.options, None, outputs, None, 0)
    ensures Paced(env.w, true, pace) && pace.polls == pace.base == 0 && old(env.w).now <= pace.since
    ensures deadline == if env.options.timeout.Some? then Some(pace.since + env.options.timeout.value) else None
  {
    outputs := Outputs(if env.w.stdout.Absent? then Some([]) else None, if env.w.stderr.Absent? then Some([]) else None);
    var now := Glance(env, None, outputs, 0, true, Pace(0, 0, env.w.now));
    deadline := if env.options.timeout.Some? then Some(now + env.options.timeout.value) else None;
    pace := Pace(0, 0, now);
  }

  /** Asks whether the child has exited, unless that is known. */
  method AskForExit(env: Environment, known: Option<int>, drain: Option<nat>, ghost outputs: Outputs, ghost stops: nat,
                    ghost connected: bool, ghost pace: Pace, ghost patience: nat)
    returns (failed: bool, status: Option<int>, drainDeadline: Option<nat>, ghost next: Pace)
    requires env.Valid() && Waiting(env.w, env.options, known, outputs, None, stops) && Paced(env.w, connected, pace)
    requires InTime(pace, known, stops, patience, drain)
    modifies env
    ensures env.Valid() && next.polls == pace.polls
    ensures !failed ==>
              Waiting(env.w, env.options, status, outputs, None, stops) && Paced(env.w, connected, next)
              && InTime(next, status, stops, patience, drainDeadline)
    ensures known.Some? ==> status == known
    ensures !failed && status.None? ==> next == pace && (env.exitBy.Some? ==> env.w.now < env.exitBy.value)
    ensures failed ==> stops == 0 && env.w.past.waitFailed
  {
    failed, status, drainDeadline, next := false, known, drain, pace;
    if known.None? {
      failed, status, drainDeadline, next := CheckExit(env, outputs, connected, pace);
      if failed { next := pace; }
    }
  }

  lemma CompleteIsExplained(w: World, o: Options, started: nat, status: int, outputs: Outputs, stops: nat)
    requires Waiting(w, o, Some(status), outputs, None, stops) && Complete(outputs)
    ensures Explained(w, o, started, Success(Output(status, outputs.stdout.value, outputs.stderr.value)), stops)
  {
  }

  /** Time that the remaining rounds can take. */
  function TimeLeft(patience: nat, pace: Pace): int {
    patience + OUTPUT_DRAIN_GRACE + 9 * PROCESS_POLL_INTERVAL - pace.polls * PROCESS_POLL_INTERVAL
  }

  lemma RoundsAreBounded(pace: Pace, status: Option<int>, stops: nat, patience: nat, drainDeadline: Option<nat>)
    requires InTime(pace, status, stops, patience, drainDeadline) && stops <= 1
    ensures TimeLeft(patience, pace) >= 0
  {
  }

  /** `wait_for_child`. It ends, whatever a descendant does with the pipes, if there is a timeout or the child exits. */
  method WaitForChild(env: Environment) returns (r: Result<Output, WaitError>, ghost stops: nat, ghost polls: nat)
    requires env.Valid() && (env.options.timeout.Some? || env.exitBy.Some?)
    requires Fresh(env.w)
    modifies env
    ensures env.Valid() && Explained(env.w, env.options, old(env.w).now, r, stops)
    ensures polls * PROCESS_POLL_INTERVAL
            <= Patience(env.options, env.exitBy, old(env.w).now) + OUTPUT_DRAIN_GRACE + 9 * PROCESS_POLL_INTERVAL
  {
    ghost var began := env.w.now;
    ghost var patience := Patience(env.options, env.exitBy, began);
    var outputs, deadline, pace := Begin(env);
    ghost var start := pace.since;
    var status: Option<int>, drainDeadline: Option<nat>, pending: Option<PipeEvent> := None, None, None;
    var connected := true;
    stops := 0;

    while true
      invariant env.Valid() && Waiting(env.w, env.options, status, outputs, pending, stops)
      invariant Paced(env.w, connected, pace) && InTime(pace, status, stops, patience, drainDeadline)
      invariant status.None? ==> pace.since == start
      decreases TimeLeft(patience, pace)
    {
      RoundsAreBounded(pace, status, stops, patience, drainDeadline);
      polls := pace.polls;
      var failure: Option<WaitError>;
      outputs, failure := Drain(env, outputs, pending, began, status, stops, connected, pace);
      if failure.Some? { return Failure(failure.value), stops, polls; }

      var failed: bool;
      failed, status, drainDeadline, pace := AskForExit(env, status, drainDeadline, outputs, stops, connected, pace, patience);
      if failed { return Failure(WaitFailed), stops, polls; }
      if status.Some? && Complete(outputs) {
        CompleteIsExplained(env.w, env.options, began, status.value, outputs, stops);
        return Success(Output(status.value, outputs.stdout.value, outputs.stderr.value)), stops, polls;
      }
      outputs, failure, pending, connected, stops, pace :=
        EndRound(env, connected, status, deadline, drainDeadline, outputs, began, pace);
      if failure.Some? { return Failure(failure.value), stops, polls; }
    }
  }
}
