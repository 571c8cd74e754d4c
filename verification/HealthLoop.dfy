/** The state of the health daemon, its wake-interval rules, and its main loop, as functions
    of the state and of what the kernel and the hooks answer. */
module HealthLoop {
  /** The intervals of healthd_config, in seconds; -1 means never. */
  datatype Config = Config(fast: int, slow: int)

  const DEFAULT_FAST := 60
  const DEFAULT_SLOW := 600

  /** The event handlers that can be registered; `NoHandler` is a null pointer. */
  datatype Handler = NoHandler | BinderEvent | WakealarmEvent | UeventEvent

  /** The globals of healthd_common.cpp, the fds added to the epoll instance, and the
      interval the kernel timer is armed with (0 when disarmed). */
  datatype State = State(
    config: Config, wakealarmFd: int, wakeInterval: int, pollInterval: int,
    armed: int, timerSets: nat, eventct: nat, registered: seq<Handler>)

  /** The static initialisers; the timer is not armed. */
  function Initial(config: Config): State {
    State(config, 0, DEFAULT_FAST, -1, 0, 0, 0, [])
  }

  // ---------- wake intervals ----------

  /** wakealarm_set_interval; `ok` says whether timerfd_settime succeeds. */
  function SetInterval(s: State, interval: int, ok: bool): State {
    if s.wakealarmFd == -1 then s
    else s.(wakeInterval := interval, timerSets := s.timerSets + 1,
            armed := if !ok then s.armed else if interval == -1 then 0 else interval)
  }

  function IntervalFor(s: State, charger: bool): int {
    if charger then s.config.fast else s.config.slow
  }

  /** One call of healthd_battery_update_internal. */
  datatype Update = Update(charger: bool, timerOk: bool)

  function BatteryUpdate(s: State, u: Update): State {
    var interval := IntervalFor(s, u.charger);
    var alarm := if interval != s.wakeInterval then SetInterval(s, interval, u.timerOk) else s;
    alarm.(pollInterval :=
      if s.config.fast == -1 || interval == s.config.fast then -1 else s.config.fast * 1000)
  }

  function Updates(s: State, us: seq<Update>): State
    decreases |us|
  {
    if us == [] then s else Updates(BatteryUpdate(s, us[0]), us[1..])
  }

  /** Something is set up to make the daemon look at the battery at the fast rate: the alarm, armed
      and with its handler registered, or the epoll timeout. The timeout is weaker: it only
      leads to a look when a wait passes without any event. */
  predicate Covered(s: State) {
    || (s.armed == s.config.fast && WakealarmEvent in s.registered)
    || s.pollInterval == s.config.fast * 1000
  }

  // ---------- initialisation ----------

  function Register(s: State, h: Handler, ok: bool): State {
    if ok then s.(eventct := s.eventct + 1, registered := s.registered + [h]) else s
  }

  /** What the kernel answers during healthd_init: the binder, timer and uevent fds, which
      registrations and which timer setting succeed. */
  datatype InitAnswers = InitAnswers(
    epollFd: int, binderFd: int, binderOk: bool, timerFd: int, timerOk: bool, armOk: bool,
    ueventFd: int, ueventOk: bool)

  function WakealarmInit(s: State, a: InitAnswers): State {
    var created := s.(wakealarmFd := a.timerFd);
    if a.timerFd == -1 then created
    else SetInterval(Register(created, WakealarmEvent, a.timerOk), s.config.fast, a.armOk)
  }

  /** healthd_init, when epoll_create succeeds. */
  function Init(s: State, a: InitAnswers): State {
    var binder := if a.binderFd >= 0 then Register(s, BinderEvent, a.binderOk) else s;
    var alarm := WakealarmInit(binder, a);
    if a.ueventFd >= 0 then Register(alarm, UeventEvent, a.ueventOk) else alarm
  }

  // ---------- the main loop ----------

  /** One fired event: the handler epoll reports, and the updates its handler performs. */
  datatype Fired = Fired(handler: Handler, updates: seq<Update>)

  /** How epoll_wait returns: with events (none on a timeout), with EINTR, or with another error. */
  datatype Wait = Ready(events: seq<Fired>) | Interrupted | Broken

  /** Everything one iteration receives: the updates of its own chores, should it run them,
      the answer of preparetowait, and the outcome of the wait. */
  datatype Round = Round(chores: seq<Update>, modeTimeout: int, wait: Wait)

  /** What one iteration does that can be observed. */
  datatype Observed = Observed(ranChores: bool, timeout: int, dispatched: seq<Handler>)

  /** The loop between two iterations. */
  datatype Loop = Loop(state: State, nevents: int, running: bool, trace: seq<Observed>)

  function Timeout(poll: int, mode: int): int {
    if poll < 0 || (mode > 0 && mode < poll) then mode else poll
  }

  /** The handlers invoked for the fired events: null pointers are skipped. */
  function Invoked(events: seq<Fired>): seq<Handler> {
    if events == [] then [] else
    (if events[0].handler.NoHandler? then [] else [events[0].handler]) + Invoked(events[1..])
  }

  function Dispatch(s: State, events: seq<Fired>): State
    decreases |events|
  {
    if events == [] then s else
    Dispatch(if events[0].handler.NoHandler? then s else Updates(s, events[0].updates), events[1..])
  }

  /** What the iteration that starts from `l` and receives `r` is seen to do. */
  function Observe(l: Loop, r: Round): Observed {
    Observed(l.nevents == 0, Timeout(l.state.pollInterval, r.modeTimeout),
             if r.wait.Ready? then Invoked(r.wait.events) else [])
  }

  function Iterate(l: Loop, r: Round): Loop {
    var s := if l.nevents == 0 then Updates(l.state, r.chores) else l.state;
    var trace := l.trace + [Observe(l, r)];
    match r.wait
    case Ready(events) => Loop(Dispatch(s, events), |events|, true, trace)
    case Interrupted => Loop(s, -1, true, trace)
    case Broken => Loop(s, -1, false, trace)
  }

  /** The loop after the given rounds; it makes no further iteration once it has left. */
  function Run(l: Loop, rounds: seq<Round>): Loop {
    if rounds == [] then l else
    var before := Run(l, rounds[..|rounds| - 1]);
    if before.running then Iterate(before, rounds[|rounds| - 1]) else before
  }

  function Enter(s: State): Loop { Loop(s, 0, true, []) }

  // ---------- registration ----------

  /** The number of events equals the number of registered fds. */
  predicate Counted(s: State) { s.eventct == |s.registered| }

  /** The kernel never reports more events than it was given room for, and only handlers
      that were registered. */
  predicate KernelReports(s: State, w: Wait) {
    w.Ready? ==> |w.events| <= s.eventct && forall i | 0 <= i < |w.events| :: w.events[i].handler in s.registered
  }

  /** A disarmed timer does not fire. */
  predicate TimerFires(s: State, w: Wait) {
    w.Ready? && s.armed == 0 ==> forall i | 0 <= i < |w.events| :: !w.events[i].handler.WakealarmEvent?
  }

  /** The fds that initialisation registered, in terms of what succeeded. */
  predicate RegisteredBy(a: InitAnswers, h: Handler) {
    match h
    case NoHandler => false
    case BinderEvent => a.binderFd >= 0 && a.binderOk
    case WakealarmEvent => a.timerFd != -1 && a.timerOk
    case UeventEvent => a.ueventFd >= 0 && a.ueventOk
  }

  // ---------- this service ----------

  /** What Health::update passes for the charger, always. */
  const CHARGER_ONLINE := true

  /** What preparetowait of this service returns, always. */
  const MODE_TIMEOUT := -1

  /** The update that Health::update makes. */
  function ServiceUpdate(timerOk: bool): Update { Update(CHARGER_ONLINE, timerOk) }

  function ServiceUpdates(timerOks: seq<bool>): (us: seq<Update>)
    ensures |us| == |timerOks| && forall i | 0 <= i < |us| :: us[i] == ServiceUpdate(timerOks[i])
  {
    seq(|timerOks|, i requires 0 <= i < |timerOks| => ServiceUpdate(timerOks[i]))
  }

  /** What one iteration of this service receives: for each update only whether its timer
      setting would succeed, and for the wait what the kernel reports. */
  datatype ServiceFired = ServiceFired(handler: Handler, timerOks: seq<bool>)

  datatype ServiceWait = ServiceReady(events: seq<ServiceFired>) | ServiceInterrupted | ServiceBroken

  datatype ServiceInput = ServiceInput(chores: seq<bool>, wait: ServiceWait)

  function ServiceEvents(events: seq<ServiceFired>): (fired: seq<Fired>)
    ensures |fired| == |events|
    ensures forall i | 0 <= i < |events| :: fired[i] == Fired(events[i].handler, ServiceUpdates(events[i].timerOks))
  {
    seq(|events|, i requires 0 <= i < |events| => Fired(events[i].handler, ServiceUpdates(events[i].timerOks)))
  }

  function ServiceRound(i: ServiceInput): Round {
    Round(ServiceUpdates(i.chores), MODE_TIMEOUT,
          match i.wait
          case ServiceReady(events) => Ready(ServiceEvents(events))
          case ServiceInterrupted => Interrupted
          case ServiceBroken => Broken)
  }

  function ServiceRounds(inputs: seq<ServiceInput>): (rounds: seq<Round>)
    ensures |rounds| == |inputs| && forall i | 0 <= i < |inputs| :: rounds[i] == ServiceRound(inputs[i])
  {
    seq(|inputs|, i requires 0 <= i < |inputs| => ServiceRound(inputs[i]))
  }

  /** The state this service enters its main loop with. */
  function ServiceStart(a: InitAnswers): State { Init(Initial(Config(DEFAULT_FAST, DEFAULT_SLOW)), a) }

  function ServiceRun(a: InitAnswers, inputs: seq<ServiceInput>): Loop {
    Run(Enter(ServiceStart(a)), ServiceRounds(inputs))
  }
}
