/** The reconnecting event stream (clients/connect, stream.ts). */
module Stream {
  import opened Values

  datatype ConnectionState = Connecting | Reconnecting | Open | Closed

  /** What the stream has done to its surroundings: sources and timers are numbered as they
      are made; `unclosed` are the sources it has not closed, `pending` the timers it has
      not cancelled and that have not fired; the rest is what it told its caller. */
  datatype World = World(
    sources: nat, unclosed: set<nat>, timers: nat, pending: set<nat>, delays: seq<real>,
    frames: seq<(string, string)>, sessions: seq<string>, states: seq<ConnectionState>)

  datatype Machine = Machine(
    hooked: bool, source: Option<nat>, state: ConnectionState, attempt: nat, timer: Option<nat>, stopped: bool, world: World)

  const START := Machine(false, None, Connecting, 0, None, false, World(0, {}, 0, {}, [], [], [], []))

  // ---- backoff -----------------------------------------------------------

  function Pow2(n: nat): nat { if n == 0 then 1 else 2 * Pow2(n - 1) }

  function Exponential(attempt: nat): nat { if 1000 * Pow2(attempt) < 30_000 then 1000 * Pow2(attempt) else 30_000 }

  /** The delay, for a jitter in [0, 1). */
  function BackoffDelay(attempt: nat, jitter: real): real { Exponential(attempt) as real + jitter * 1000.0 }

  lemma {:induction false} Pow2Grows(m: nat, n: nat)
    requires m <= n
    ensures Pow2(m) <= Pow2(n)
  {
    if m < n { Pow2Grows(m, n - 1); }
  }

  /** The delay ranges of consecutive attempts are disjoint and growing exactly for the
      first five; from there on the cap holds every range at thirty to thirty-one seconds. */
  lemma BackoffGrows(attempt: nat)
    ensures Exponential(attempt) + 1000 <= Exponential(attempt + 1) <==> attempt < 5
    ensures attempt >= 5 ==> Exponential(attempt) == 30_000
    ensures forall j: real :: 0.0 <= j < 1.0 ==> Exponential(attempt) as real <= BackoffDelay(attempt, j) < (Exponential(attempt) + 1000) as real
  {
    assert Pow2(1) == 2 && Pow2(2) == 4 && Pow2(3) == 8 && Pow2(4) == 16 && Pow2(5) == 32;
    if attempt >= 5 {
      Pow2Grows(5, attempt);
      Pow2Grows(5, attempt + 1);
    }
  }

  // ---- the machine -------------------------------------------------------

  /** A change of state, reported once there is a caller to report to. */
  function SetStateTo(m: Machine, state: ConnectionState): Machine {
    if m.state == state then m
    else m.(state := state, world := if m.hooked then m.world.(states := m.world.states + [state]) else m.world)
  }

  function CloseSource(w: World, source: Option<nat>): World {
    if source.Some? then w.(unclosed := w.unclosed - {source.value}) else w
  }

  function CancelTimer(w: World, timer: Option<nat>): World {
    if timer.Some? then w.(pending := w.pending - {timer.value}) else w
  }

  function Connected(m: Machine): Machine {
    if m.stopped then m
    else
      var n := SetStateTo(m, if m.attempt == 0 then Connecting else Reconnecting);
      var w := n.world;
      n.(source := Some(w.sources), world := w.(sources := w.sources + 1, unclosed := w.unclosed + {w.sources}))
  }

  function Opened(m: Machine): Machine { if m.hooked then m else Connected(m.(hooked := true)) }

  function ClosedForGood(m: Machine): Machine {
    SetStateTo(m.(stopped := true, timer := None, source := None, world := CloseSource(CancelTimer(m.world, m.timer), m.source)), Closed)
  }

  function Progressed(m: Machine): Machine {
    SetStateTo(m.(attempt := 0, timer := None, world := CancelTimer(m.world, m.timer)), Open)
  }

  function Scheduled(m: Machine, jitter: real): Machine {
    if m.timer.Some? then m
    else
      var w := m.world;
      m.(attempt := m.attempt + 1, timer := Some(w.timers),
         world := w.(timers := w.timers + 1, pending := w.pending + {w.timers}, delays := w.delays + [BackoffDelay(m.attempt, jitter)]))
  }

  /** An error of the current source; one that has closed will not recover on its own. */
  function Failed(m: Machine, readyClosed: bool, jitter: real): Machine {
    if m.stopped then m
    else
      var n := SetStateTo(m, Reconnecting);
      if readyClosed then Scheduled(n, jitter) else n
  }

  /** The reconnect timer runs: drop the dead source and connect anew. */
  function Fired(m: Machine, timer: nat): Machine {
    var w := m.world.(pending := m.world.pending - {timer});
    Connected(m.(timer := None, source := None, world := CloseSource(w, m.source)))
  }

  /** Everything that can happen: the two calls, the events of any source ever made, and a
      timer going off. A session announcement carries its parsed id, if it has one. */
  datatype Event =
    | CallOpen
    | CallClose
    | MessageEvent(src: nat, data: string, id: string)
    | SessionEvent(src: nat, session: Option<string>)
    | OpenEvent(src: nat)
    | ErrorEvent(src: nat, readyClosed: bool, jitter: real)
    | TimerFires(t: nat)

  predicate IsSourceEvent(e: Event) { e.MessageEvent? || e.SessionEvent? || e.OpenEvent? || e.ErrorEvent? }

  /** A cancelled or fired timer never fires again; everything else may always happen. */
  predicate Enabled(m: Machine, e: Event) { e.TimerFires? ==> e.t in m.world.pending }

  function Step(m: Machine, e: Event): Machine
    requires Enabled(m, e)
  {
    if IsSourceEvent(e) && m.source != Some(e.src) then m
    else match e
      case CallOpen => Opened(m)
      case CallClose => ClosedForGood(m)
      case MessageEvent(_, data, id) => (var n := Progressed(m); n.(world := n.world.(frames := n.world.frames + [(data, id)])))
      case SessionEvent(_, session) =>
        (var n := Progressed(m);
         if session.Some? then n.(world := n.world.(sessions := n.world.sessions + [session.value])) else n)
      case OpenEvent(_) => Progressed(m)
      case ErrorEvent(_, readyClosed, jitter) => Failed(m, readyClosed, jitter)
      case TimerFires(t) => Fired(m, t)
  }

  /** The object itself. */
  class EventStream {
    var hooks: bool
    var source: Option<nat>
    var state: ConnectionState
    var attempt: nat
    var cancelReconnect: Option<nat>
    var stopped: bool
    var world: World

    function Current(): Machine
      reads this
    {
      Machine(hooks, source, state, attempt, cancelReconnect, stopped, world)
    }

    constructor ()
      ensures Current() == START
    {
      hooks, source, state, attempt, cancelReconnect, stopped := false, None, Connecting, 0, None, false;
      world := World(0, {}, 0, {}, [], [], [], []);
    }

    method OpenStream()
      modifies this
      ensures Current() == Step(old(Current()), CallOpen)
    {
      if hooks {
        return;
      }
      hooks := true;
      Connect();
    }

    method Close()
      modifies this
      ensures Current() == Step(old(Current()), CallClose)
    {
      stopped := true;
      world := CancelTimer(world, cancelReconnect);
      cancelReconnect := None;
      world := CloseSource(world, source);
      source := None;
      SetState(Closed);
    }

    method Connect()
      modifies this
      ensures Current() == Connected(old(Current()))
    {
      if stopped {
        return;
      }
      SetState(if attempt == 0 then Connecting else Reconnecting);
      source := Some(world.sources);
      world := world.(sources := world.sources + 1, unclosed := world.unclosed + {world.sources});
    }

    method OnMessage(src: nat, data: string, id: string)
      modifies this
      ensures Current() == Step(old(Current()), MessageEvent(src, data, id))
    {
      if source != Some(src) {
        return;
      }
      MarkProgress();
      world := world.(frames := world.frames + [(data, id)]);
    }

    method OnSession(src: nat, session: Option<string>)
      modifies this
      ensures Current() == Step(old(Current()), SessionEvent(src, session))
    {
      if source != Some(src) {
        return;
      }
      MarkProgress();
      if session.Some? {
        world := world.(sessions := world.sessions + [session.value]);
      }
    }

    method OnOpen(src: nat)
      modifies this
      ensures Current() == Step(old(Current()), OpenEvent(src))
    {
      if source == Some(src) {
        MarkProgress();
      }
    }

    method OnError(src: nat, readyClosed: bool, jitter: real)
      modifies this
      ensures Current() == Step(old(Current()), ErrorEvent(src, readyClosed, jitter))
    {
      if source == Some(src) && !stopped {
        SetState(Reconnecting);
        if readyClosed {
          ScheduleReconnect(jitter);
        }
      }
    }

    method OnTimer(t: nat)
      requires t in world.pending
      modifies this
      ensures Current() == Step(old(Current()), TimerFires(t))
    {
      world := world.(pending := world.pending - {t});
      cancelReconnect := None;
      world := CloseSource(world, source);
      source := None;
      Connect();
    }

    method MarkProgress()
      modifies this
      ensures Current() == Progressed(old(Current()))
    {
      attempt := 0;
      world := CancelTimer(world, cancelReconnect);
      cancelReconnect := None;
      SetState(Open);
    }

    method ScheduleReconnect(jitter: real)
      modifies this
      ensures Current() == Scheduled(old(Current()), jitter)
    {
      if cancelReconnect.Some? {
        return;
      }
      var delay := BackoffDelay(attempt, jitter);
      attempt := attempt + 1;
      cancelReconnect := Some(world.timers);
      world := world.(timers := world.timers + 1, pending := world.pending + {world.timers}, delays := world.delays + [delay]);
    }

    method SetState(next: ConnectionState)
      modifies this`state, this`world
      ensures Current() == SetStateTo(old(Current()), next)
    {
      if state == next {
        return;
      }
      state := next;
      if hooks {
        world := world.(states := world.states + [next]);
      }
    }
  }

  // ---- what an event does ------------------------------------------------

  /** The current source shows that the connection works. */
  predicate Advances(m: Machine, e: Event) { (e.MessageEvent? || e.SessionEvent? || e.OpenEvent?) && m.source == Some(e.src) }

  /** The current source has closed on an error, and no reconnect is waiting yet. */
  predicate Drops(m: Machine, e: Event) {
    e.ErrorEvent? && m.source == Some(e.src) && e.readyClosed && m.world.pending == {}
  }

  predicate StartsOff(m: Machine, e: Event) { e.CallOpen? && !m.hooked && !m.stopped }

  /** The state an event leads to. */
  function StateAfter(m: Machine, e: Event): ConnectionState {
    if e.CallClose? then Closed
    else if StartsOff(m, e) then Connecting
    else if e.TimerFires? || (e.ErrorEvent? && m.source == Some(e.src)) then Reconnecting
    else if Advances(m, e) then Open
    else m.state
  }

  /** Whether a reconnect waits after an event. */
  predicate WaitsAfter(m: Machine, e: Event) {
    if e.CallClose? || e.TimerFires? || Advances(m, e) then false
    else m.world.pending != {} || Drops(m, e)
  }

  /** How many reconnects have been asked for since the connection last worked. */
  function FailuresAfter(m: Machine, e: Event, failures: nat): nat {
    if Advances(m, e) then 0 else if Drops(m, e) then failures + 1 else failures
  }

  /** The delay asked for after that many: doubling from one second, thirty at most, and up
      to a second more. */
  function DelayAfter(failures: nat, jitter: real): real {
    (match failures case 0 => 1_000.0 case 1 => 2_000.0 case 2 => 4_000.0 case 3 => 8_000.0 case 4 => 16_000.0 case _ => 30_000.0)
    + jitter * 1_000.0
  }

  lemma BackoffIs(failures: nat, jitter: real)
    ensures BackoffDelay(failures, jitter) == DelayAfter(failures, jitter)
  {
    assert Pow2(1) == 2 && Pow2(2) == 4 && Pow2(3) == 8 && Pow2(4) == 16 && Pow2(5) == 32;
    if failures >= 5 { Pow2Grows(5, failures); }
  }

  /** What every event does to the state, the waiting reconnect, the count of failures, the
      requested delays and the announced sessions. */
  lemma EventActs(m: Machine, e: Event)
    requires Inv(m) && Enabled(m, e)
    ensures var n := Step(m, e);
      && n.state == StateAfter(m, e) && (n.world.pending != {} <==> WaitsAfter(m, e))
      && n.attempt == FailuresAfter(m, e, m.attempt)
      && n.world.delays == m.world.delays + (if Drops(m, e) then [DelayAfter(m.attempt, e.jitter)] else [])
      && n.world.sessions == m.world.sessions + (if e.SessionEvent? && Advances(m, e) && e.session.Some? then [e.session.value] else [])
  {
    if Drops(m, e) { BackoffIs(m.attempt, e.jitter); }
    if Advances(m, e) { ProgressActs(m); }
    if e.ErrorEvent? && m.source == Some(e.src) { FailureActs(m, e.readyClosed, e.jitter); }
  }

  lemma ProgressActs(m: Machine)
    requires Inv(m)
    ensures var n := Progressed(m);
      n.state == Open && n.world.pending == {} && n.attempt == 0 && n.world.delays == m.world.delays && n.world.sessions == m.world.sessions
  {
  }

  lemma FailureActs(m: Machine, readyClosed: bool, jitter: real)
    requires Inv(m) && m.source.Some?
    ensures var n := Failed(m, readyClosed, jitter);
      && n.state == Reconnecting && n.world.sessions == m.world.sessions
      && (n.world.pending != {} <==> m.world.pending != {} || readyClosed)
      && n.attempt == m.attempt + (if readyClosed && m.world.pending == {} then 1 else 0)
      && n.world.delays == m.world.delays + (if readyClosed && m.world.pending == {} then [BackoffDelay(m.attempt, jitter)] else [])
  {
  }

  /** The delays along a run, after that many failures at its start. */
  ghost function Requests(m: Machine, events: seq<Event>, failures: nat): seq<real>
    decreases |events|
  {
    if events == [] || !Enabled(m, events[0]) then []
    else
      (if Drops(m, events[0]) then [DelayAfter(failures, events[0].jitter)] else [])
      + Requests(Step(m, events[0]), events[1..], FailuresAfter(m, events[0], failures))
  }

  /** The sessions the current sources announce along a run. */
  ghost function Announcements(m: Machine, events: seq<Event>): seq<string>
    decreases |events|
  {
    if events == [] || !Enabled(m, events[0]) then []
    else
      var e := events[0];
      (if e.SessionEvent? && Advances(m, e) && e.session.Some? then [e.session.value] else []) + Announcements(Step(m, e), events[1..])
  }

  /** A run asks for a reconnect each time the current source closes and none is waiting, and
      waits for it by the number of such closings since the connection last worked. */
  lemma {:induction false} RunRequests(m: Machine, events: seq<Event>, n: Machine)
    requires Inv(m) && IsRun(m, events, n)
    ensures n.world.delays == m.world.delays + Requests(m, events, m.attempt)
    decreases |events|
  {
    if events != [] {
      EventActs(m, events[0]);
      StepKeepsInv(m, events[0]);
      RunRequests(Step(m, events[0]), events[1..], n);
    }
  }

  /** Every session the current source announces arrives, once and in order. */
  lemma {:induction false} RunAnnounces(m: Machine, events: seq<Event>, n: Machine)
    requires Inv(m) && IsRun(m, events, n)
    ensures n.world.sessions == m.world.sessions + Announcements(m, events)
    decreases |events|
  {
    if events != [] {
      EventActs(m, events[0]);
      StepKeepsInv(m, events[0]);
      RunAnnounces(Step(m, events[0]), events[1..], n);
    }
  }

  // ---- every interleaving ------------------------------------------------

  function Only(source: Option<nat>): set<nat> { if source.Some? then {source.value} else {} }

  ghost predicate NeverRepeats(states: seq<ConnectionState>) {
    forall i :: 0 <= i < |states| - 1 ==> states[i] != states[i + 1]
  }

  ghost predicate Inv(m: Machine) {
    // The one unclosed source is the current one, the one pending timer the reconnect.
    && m.world.unclosed == Only(m.source) && m.world.pending == Only(m.timer)
    && (m.source.Some? ==> m.source.value < m.world.sources)
    && (m.timer.Some? ==> m.timer.value < m.world.timers)
    // Between `open` and `close` there is always a source; a reconnect waits only while
    // reconnecting, after at least one attempt; progress has cleared the backoff.
    && (m.source.Some? <==> m.hooked && !m.stopped)
    && (m.timer.Some? ==> m.source.Some? && m.state == Reconnecting && m.attempt > 0)
    && (m.state == Open || !m.hooked ==> m.attempt == 0)
    && (m.state == Closed <==> m.stopped)
    // A state is reported once per change.
    && NeverRepeats(m.world.states)
    && (m.world.states != [] ==> m.world.states[|m.world.states| - 1] == m.state)
    && (!m.hooked ==> m.world.states == [])
    && (m.world.states == [] ==> m.state == Connecting || m.state == Closed)
  }

  /** What is told to the caller about the state. */
  ghost predicate ReportsKept(m: Machine) {
    && NeverRepeats(m.world.states)
    && (m.world.states != [] ==> m.world.states[|m.world.states| - 1] == m.state)
  }

  lemma SetStateKeeps(m: Machine, state: ConnectionState)
    requires ReportsKept(m) && (!m.hooked ==> m.world.states == [])
    ensures ReportsKept(SetStateTo(m, state))
  {
  }

  lemma ConnectKeepsInv(m: Machine)
    requires m.world.unclosed == {} && m.world.pending == {} && m.source.None? && m.timer.None?
    requires m.hooked && (m.state == Closed <==> m.stopped) && (m.state == Open ==> m.attempt == 0)
    requires ReportsKept(m) && (m.world.states == [] ==> m.state == Connecting || m.state == Closed)
    ensures Inv(Connected(m))
  {
    SetStateKeeps(m, Connecting);
    SetStateKeeps(m, Reconnecting);
  }

  lemma CloseKeepsInv(m: Machine)
    requires Inv(m)
    ensures Inv(ClosedForGood(m))
  {
    SetStateKeeps(m, Closed);
  }

  lemma ProgressKeepsInv(m: Machine)
    requires Inv(m) && m.source.Some?
    ensures Inv(Progressed(m))
  {
    SetStateKeeps(m, Open);
  }

  lemma FailureKeepsInv(m: Machine, readyClosed: bool, jitter: real)
    requires Inv(m) && m.source.Some?
    ensures Inv(Failed(m, readyClosed, jitter))
  {
    SetStateKeeps(m, Reconnecting);
  }

  lemma FiringKeepsInv(m: Machine, t: nat)
    requires Inv(m) && t in m.world.pending
    ensures Inv(Fired(m, t))
  {
    ConnectKeepsInv(m.(timer := None, source := None,
                       world := CloseSource(m.world.(pending := m.world.pending - {t}), m.source)));
  }

  lemma StepKeepsInv(m: Machine, e: Event)
    requires Inv(m) && Enabled(m, e)
    ensures Inv(Step(m, e))
  {
    if IsSourceEvent(e) && m.source == Some(e.src) {
      ProgressKeepsInv(m);
      if e.ErrorEvent? { FailureKeepsInv(m, e.readyClosed, e.jitter); }
    } else if e.CallOpen? {
      if !m.hooked { ConnectKeepsInv(m.(hooked := true)); }
    } else if e.CallClose? {
      CloseKeepsInv(m);
    } else if e.TimerFires? {
      FiringKeepsInv(m, e.t);
    }
  }

  /** The machine after a run, each event enabled where it happens. */
  ghost predicate IsRun(m: Machine, events: seq<Event>, n: Machine)
    decreases |events|
  {
    if events == [] then n == m
    else Enabled(m, events[0]) && IsRun(Step(m, events[0]), events[1..], n)
  }

  /** The changes of state along a run, from `open` on. */
  ghost function Changes(m: Machine, events: seq<Event>): seq<ConnectionState>
    decreases |events|
  {
    if events == [] || !Enabled(m, events[0]) then []
    else
      var n := Step(m, events[0]);
      (if n.hooked && n.state != m.state then [n.state] else []) + Changes(n, events[1..])
  }

  /** No change goes unreported, and nothing else is reported. */
  lemma StepReports(m: Machine, e: Event)
    requires Enabled(m, e)
    ensures var n := Step(m, e);
      n.world.states == m.world.states + (if n.hooked && n.state != m.state then [n.state] else [])
  {
  }

  lemma {:induction false} RunKeepsInv(m: Machine, events: seq<Event>, n: Machine)
    requires Inv(m) && IsRun(m, events, n)
    ensures Inv(n)
    decreases |events|
  {
    if events != [] {
      StepKeepsInv(m, events[0]);
      RunKeepsInv(Step(m, events[0]), events[1..], n);
    }
  }

  lemma {:induction false} RunReports(m: Machine, events: seq<Event>, n: Machine)
    requires IsRun(m, events, n)
    ensures n.world.states == m.world.states + Changes(m, events)
    decreases |events|
  {
    if events != [] {
      StepReports(m, events[0]);
      RunReports(Step(m, events[0]), events[1..], n);
    }
  }

  /** Whatever the interleaving of calls, source events and timers: at most one source is
      open and unclosed, at most one reconnect is pending, and the reported states are
      exactly the changes of state, in order. */
  lemma EveryRunIsSafe(m: Machine, events: seq<Event>, n: Machine)
    requires Inv(m) && IsRun(m, events, n)
    ensures Inv(n) && |n.world.unclosed| <= 1 && |n.world.pending| <= 1
    ensures n.world.states == m.world.states + Changes(m, events)
  {
    RunKeepsInv(m, events, n);
    RunReports(m, events, n);
  }

  /** A new stream is safe in every run, and reports the changes since it was opened. */
  lemma StartIsSafe(events: seq<Event>, n: Machine)
    requires IsRun(START, events, n)
    ensures Inv(n) && |n.world.unclosed| <= 1 && |n.world.pending| <= 1
    ensures n.world.states == Changes(START, events)
  {
    EveryRunIsSafe(START, events, n);
  }

  /** An event of a source that has been replaced or closed changes nothing at all. */
  lemma {:induction false} StaleEventsChangeNothing(m: Machine, events: seq<Event>, n: Machine)
    requires IsRun(m, events, n)
    requires forall i :: 0 <= i < |events| ==> IsSourceEvent(events[i]) && Some(events[i].src) != m.source
    ensures n == m
    decreases |events|
  {
    if events != [] {
      StaleEventsChangeNothing(m, events[1..], n);
    }
  }

  /** After `close` no source is opened, no timer started, nothing delivered or reported,
      and the state stays closed. */
  lemma {:induction false} ClosedForever(m: Machine, events: seq<Event>, n: Machine)
    requires Inv(m) && m.stopped && IsRun(m, events, n)
    ensures n.stopped && n.state == Closed && n.world == m.world
    decreases |events|
  {
    if events != [] {
      StepKeepsInv(m, events[0]);
      ClosedForever(Step(m, events[0]), events[1..], n);
    }
  }

  lemma CloseCloses(m: Machine)
    requires Inv(m)
    ensures var n := Step(m, CallClose);
      n.stopped && n.state == Closed && n.world.unclosed == {} && n.world.pending == {} && n.world.sources == m.world.sources
  {
    StepKeepsInv(m, CallClose);
  }

  /** Only the current source delivers: frames grow by one message of the current source
      and by nothing else. */
  lemma FramesComeFromTheSource(m: Machine, e: Event)
    requires Enabled(m, e)
    ensures Step(m, e).world.frames
         == if e.MessageEvent? && m.source == Some(e.src) then m.world.frames + [(e.data, e.id)] else m.world.frames
  {
  }

  /** The messages of a run that come from the source current at their time. */
  ghost function Deliveries(m: Machine, events: seq<Event>): seq<(string, string)>
    decreases |events|
  {
    if events == [] || !Enabled(m, events[0]) then []
    else
      (if events[0].MessageEvent? && m.source == Some(events[0].src) then [(events[0].data, events[0].id)] else [])
      + Deliveries(Step(m, events[0]), events[1..])
  }

  /** Every message of the current source is delivered once, in order, and nothing else. */
  lemma {:induction false} RunDelivers(m: Machine, events: seq<Event>, n: Machine)
    requires IsRun(m, events, n)
    ensures n.world.frames == m.world.frames + Deliveries(m, events)
    decreases |events|
  {
    if events != [] {
      FramesComeFromTheSource(m, events[0]);
      RunDelivers(Step(m, events[0]), events[1..], n);
    }
  }

  /** A dropped source is replaced: when the reconnect goes off, the old source is closed,
      exactly one new one is opened, and the machine is reconnecting. */
  lemma ReconnectReplacesTheSource(m: Machine, t: nat)
    requires Inv(m) && t in m.world.pending
    ensures var n := Step(m, TimerFires(t));
      && n.source == Some(m.world.sources) && n.world.sources == m.world.sources + 1
      && n.world.unclosed == {m.world.sources} && n.world.pending == {} && n.state == Reconnecting
  {
    StepKeepsInv(m, TimerFires(t));
  }

  /** Whatever was going on, after `close` nothing is left open or pending, and nothing is
      opened, scheduled, delivered or reported any more. */
  lemma CloseIsFinal(m: Machine, events: seq<Event>, n: Machine)
    requires Inv(m) && IsRun(Step(m, CallClose), events, n)
    ensures n.stopped && n.state == Closed && n.world == Step(m, CallClose).world
    ensures n.world.unclosed == {} && n.world.pending == {} && n.world.sources == m.world.sources
    ensures n.world.frames == m.world.frames
  {
    StepKeepsInv(m, CallClose);
    CloseCloses(m);
    FramesComeFromTheSource(m, CallClose);
    ClosedForever(Step(m, CallClose), events, n);
  }

  /** The events of a run that may connect: the first `open`, and every reconnect. */
  ghost function Connections(m: Machine, events: seq<Event>): nat
    decreases |events|
  {
    if events == [] || !Enabled(m, events[0]) then 0
    else
      (if events[0].TimerFires? || (events[0].CallOpen? && !m.hooked && !m.stopped) then 1 else 0)
      + Connections(Step(m, events[0]), events[1..])
  }

  lemma StepConnects(m: Machine, e: Event)
    requires Inv(m) && Enabled(m, e)
    ensures Step(m, e).world.sources
         == m.world.sources + (if e.TimerFires? || (e.CallOpen? && !m.hooked && !m.stopped) then 1 else 0)
  {
    if e.TimerFires? { ReconnectReplacesTheSource(m, e.t); }
  }

  /** A source is made by `open` and by each reconnect that goes off, and by nothing else:
      whatever the sources do, they never connect twice. */
  lemma {:induction false} RunConnects(m: Machine, events: seq<Event>, n: Machine)
    requires Inv(m) && IsRun(m, events, n)
    ensures n.world.sources == m.world.sources + Connections(m, events)
    decreases |events|
  {
    if events != [] {
      StepConnects(m, events[0]);
      StepKeepsInv(m, events[0]);
      RunConnects(Step(m, events[0]), events[1..], n);
    }
  }
}
