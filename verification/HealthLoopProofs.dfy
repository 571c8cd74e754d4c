/** What every run of the health daemon keeps. */
module HealthLoopProofs {
  import opened HealthLoop

  // ---------- updates only touch the intervals ----------

  predicate SameSetup(s: State, t: State) {
    && t.config == s.config && t.wakealarmFd == s.wakealarmFd
    && t.eventct == s.eventct && t.registered == s.registered
  }

  lemma {:induction false} UpdatesKeepSetup(s: State, us: seq<Update>)
    ensures SameSetup(s, Updates(s, us))
    decreases |us|
  {
    if us != [] {
      UpdatesKeepSetup(BatteryUpdate(s, us[0]), us[1..]);
    }
  }

  lemma {:induction false} DispatchKeepsSetup(s: State, events: seq<Fired>)
    ensures SameSetup(s, Dispatch(s, events))
    decreases |events|
  {
    if events != [] {
      UpdatesKeepSetup(s, events[0].updates);
      DispatchKeepsSetup(if events[0].handler.NoHandler? then s else Updates(s, events[0].updates), events[1..]);
    }
  }

  lemma {:induction false} RunKeepsSetup(l: Loop, rounds: seq<Round>)
    ensures SameSetup(l.state, Run(l, rounds).state)
  {
    if rounds != [] {
      RunKeepsSetup(l, rounds[..|rounds| - 1]);
      var before, r := Run(l, rounds[..|rounds| - 1]), rounds[|rounds| - 1];
      UpdatesKeepSetup(before.state, r.chores);
      if r.wait.Ready? {
        var s := if before.nevents == 0 then Updates(before.state, r.chores) else before.state;
        DispatchKeepsSetup(s, r.wait.events);
      }
    }
  }

  // ---------- registration ----------

  /** After initialisation `eventct` is the number of fds registered, whatever failed. */
  lemma InitCounts(config: Config, a: InitAnswers)
    ensures Counted(Init(Initial(config), a))
  {}

  /** Exactly the fds that were opened and accepted are registered. */
  lemma InitRegisters(config: Config, a: InitAnswers, h: Handler)
    ensures h in Init(Initial(config), a).registered <==> RegisteredBy(a, h)
  {}

  // ---------- the trace ----------

  /** One more round extends the trace by one observation, unless the loop has left. */
  lemma TraceGrows(l: Loop, rounds: seq<Round>)
    requires rounds != []
    ensures var before := Run(l, rounds[..|rounds| - 1]);
            Run(l, rounds).trace
            == if before.running then before.trace + [Observe(before, rounds[|rounds| - 1])] else before.trace
  {}

  lemma {:induction false} TraceLength(s: State, rounds: seq<Round>)
    ensures var l := Run(Enter(s), rounds);
            |l.trace| <= |rounds| && (l.running ==> |l.trace| == |rounds|)
  {
    if rounds != [] {
      TraceLength(s, rounds[..|rounds| - 1]);
      TraceGrows(Enter(s), rounds);
    }
  }

  /** Iteration k of a run is one iteration from the loop as the first k rounds left it. */
  lemma {:induction false} TraceAt(s: State, rounds: seq<Round>, k: nat)
    requires k < |Run(Enter(s), rounds).trace|
    ensures k < |rounds|
    ensures var before := Run(Enter(s), rounds[..k]);
            before.running && Run(Enter(s), rounds).trace[k] == Observe(before, rounds[k])
  {
    TraceLength(s, rounds);
    var init := rounds[..|rounds| - 1];
    TraceGrows(Enter(s), rounds);
    TraceLength(s, init);
    if k < |Run(Enter(s), init).trace| {
      TraceAt(s, init, k);
      assert init[..k] == rounds[..k];
    } else {
      assert init == rounds[..k];
    }
  }

  lemma {:induction false} EventsLeft(s: State, rounds: seq<Round>)
    requires rounds != [] && Run(Enter(s), rounds).running
    ensures var w := rounds[|rounds| - 1].wait;
            Run(Enter(s), rounds).nevents == if w.Ready? then |w.events| else -1
  {}

  // ---------- how long the loop runs ----------

  predicate NoneBroken(rounds: seq<Round>) { forall i | 0 <= i < |rounds| :: !rounds[i].wait.Broken? }

  /** The loop goes on after every wait that returned events, timed out or was interrupted: it has
      left if and only if some wait failed for another reason, and it iterates once for each round
      up to and including the first such wait. */
  lemma {:induction false} RunsUntilBroken(s: State, rounds: seq<Round>)
    ensures var l := Run(Enter(s), rounds);
            && (l.running <==> NoneBroken(rounds))
            && |l.trace| <= |rounds| && NoneBroken(rounds[..if l.trace == [] then 0 else |l.trace| - 1])
            && (l.running ==> |l.trace| == |rounds|)
            && (!l.running ==> l.trace != [] && rounds[|l.trace| - 1].wait.Broken?)
  {
    if rounds != [] {
      var init, last := rounds[..|rounds| - 1], rounds[|rounds| - 1];
      RunsUntilBroken(s, init);
      assert NoneBroken(rounds) <==> NoneBroken(init) && !last.wait.Broken?;
      var n := |Run(Enter(s), rounds).trace|;
      assert n > 0 ==> rounds[..n - 1] == init[..n - 1];
      assert init[..|init|] == init;
    }
  }

  /** The updates that the handlers of a wait perform; null pointers are skipped. */
  function FiredUpdates(events: seq<Fired>): seq<Update> {
    if events == [] then [] else
    (if events[0].handler.NoHandler? then [] else events[0].updates) + FiredUpdates(events[1..])
  }

  /** The updates of iteration `k`: the chores if it is the first one or follows a timeout, and
      what the handlers do. */
  function PerformedIn(rounds: seq<Round>, k: nat): seq<Update>
    requires k < |rounds|
  {
    (if k == 0 || rounds[k - 1].wait == Ready([]) then rounds[k].chores else [])
    + if rounds[k].wait.Ready? then FiredUpdates(rounds[k].wait.events) else []
  }

  /** The updates performed in the first `n` iterations, in order. */
  function Performed(rounds: seq<Round>, n: nat): seq<Update>
    requires n <= |rounds|
  {
    if n == 0 then [] else Performed(rounds, n - 1) + PerformedIn(rounds, n - 1)
  }

  lemma {:induction false} UpdatesConcat(s: State, us: seq<Update>, more: seq<Update>)
    ensures Updates(s, us + more) == Updates(Updates(s, us), more)
    decreases |us|
  {
    if us == [] {
      assert us + more == more;
    } else {
      assert (us + more)[1..] == us[1..] + more;
      UpdatesConcat(BatteryUpdate(s, us[0]), us[1..], more);
    }
  }

  lemma {:induction false} DispatchPerforms(s: State, events: seq<Fired>)
    ensures Dispatch(s, events) == Updates(s, FiredUpdates(events))
    decreases |events|
  {
    if events != [] {
      var first := if events[0].handler.NoHandler? then [] else events[0].updates;
      DispatchPerforms(Updates(s, first), events[1..]);
      UpdatesConcat(s, first, FiredUpdates(events[1..]));
    }
  }

  lemma IteratePerforms(l: Loop, r: Round)
    ensures Iterate(l, r).state
            == Updates(l.state, (if l.nevents == 0 then r.chores else [])
                                + if r.wait.Ready? then FiredUpdates(r.wait.events) else [])
  {
    var chores := if l.nevents == 0 then r.chores else [];
    var fired := if r.wait.Ready? then FiredUpdates(r.wait.events) else [];
    UpdatesConcat(l.state, chores, fired);
    if r.wait.Ready? {
      DispatchPerforms(Updates(l.state, chores), r.wait.events);
    }
  }

  lemma ChoresDue(s: State, rounds: seq<Round>)
    requires Run(Enter(s), rounds).running
    ensures Run(Enter(s), rounds).nevents == 0 <==> rounds == [] || rounds[|rounds| - 1].wait == Ready([])
  {
    if rounds != [] {
      EventsLeft(s, rounds);
    }
  }

  lemma RunNext(s: State, rounds: seq<Round>, n: nat)
    requires n < |rounds| && Run(Enter(s), rounds[..n]).running
    ensures Run(Enter(s), rounds[..n + 1]) == Iterate(Run(Enter(s), rounds[..n]), rounds[n])
  {
    assert rounds[..n + 1][..n] == rounds[..n];
  }

  lemma OneMorePerforms(s: State, rounds: seq<Round>, n: nat)
    requires n < |rounds| && Run(Enter(s), rounds[..n]).running
    ensures Run(Enter(s), rounds[..n + 1]).state == Updates(Run(Enter(s), rounds[..n]).state, PerformedIn(rounds, n))
  {
    ChoresDue(s, rounds[..n]);
    assert n > 0 ==> rounds[..n][n - 1] == rounds[n - 1];
    IteratePerforms(Run(Enter(s), rounds[..n]), rounds[n]);
    RunNext(s, rounds, n);
  }

  /** After the last iteration nothing changes any more. */
  lemma {:induction false} RunEnds(s: State, rounds: seq<Round>)
    ensures var n := |Run(Enter(s), rounds).trace|;
            n <= |rounds| && Run(Enter(s), rounds) == Run(Enter(s), rounds[..n])
  {
    TraceLength(s, rounds);
    if Run(Enter(s), rounds).running || rounds == [] {
      assert rounds[..|rounds|] == rounds;
    } else {
      var init := rounds[..|rounds| - 1];
      RunEnds(s, init);
      if Run(Enter(s), init).running {
        TraceLength(s, init);
        TraceGrows(Enter(s), rounds);
        assert rounds[..|rounds|] == rounds;
      } else {
        var n := |Run(Enter(s), init).trace|;
        assert rounds[..n] == init[..n];
      }
    }
  }

  lemma StillRunning(s: State, rounds: seq<Round>, k: nat)
    requires k < |Run(Enter(s), rounds).trace|
    ensures k < |rounds| && Run(Enter(s), rounds[..k]).running
  {
    TraceAt(s, rounds, k);
  }

  /** The updates made until the wait of iteration `n`, if the loop gets that far. */
  lemma {:induction false} PerformsUntil(s: State, rounds: seq<Round>, n: nat, u: State)
    requires n <= |rounds| && forall k | 0 <= k < n :: Run(Enter(s), rounds[..k]).running
    requires u == Updates(s, Performed(rounds, n))
    ensures Run(Enter(s), rounds[..n]).state == u
  {
    if n == 0 {
      assert rounds[..0] == [];
    } else {
      var before := Updates(s, Performed(rounds, n - 1));
      PerformsUntil(s, rounds, n - 1, before);
      OneMorePerforms(s, rounds, n - 1);
      assert u == Updates(before, PerformedIn(rounds, n - 1)) by {
        UpdatesConcat(s, Performed(rounds, n - 1), PerformedIn(rounds, n - 1));
      }
    }
  }

  /** The daemon after a run is the daemon before it with exactly these updates made. */
  lemma RunPerforms(s: State, rounds: seq<Round>)
    ensures var l := Run(Enter(s), rounds);
            |l.trace| <= |rounds| && l.state == Updates(s, Performed(rounds, |l.trace|))
  {
    RunEnds(s, rounds);
    var n := |Run(Enter(s), rounds).trace|;
    forall k | 0 <= k < n ensures Run(Enter(s), rounds[..k]).running {
      StillRunning(s, rounds, k);
    }
    PerformsUntil(s, rounds, n, Updates(s, Performed(rounds, n)));
  }

  // ---------- chores and timeouts ----------

  /** The loop's own chores run in the first iteration and in each iteration that follows a
      wait that returned 0, and in no other; in particular not after EINTR. */
  lemma ChoresExactly(s: State, rounds: seq<Round>, k: nat)
    requires k < |Run(Enter(s), rounds).trace|
    ensures k < |rounds|
    ensures Run(Enter(s), rounds).trace[k].ranChores <==> k == 0 || rounds[k - 1].wait == Ready([])
  {
    TraceAt(s, rounds, k);
    if k > 0 {
      assert rounds[..k][k - 1] == rounds[k - 1];
      EventsLeft(s, rounds[..k]);
    }
  }

  /** The timeout handed to epoll is computed from the poll interval that the iteration
      started with, before its own chores: a change made by them acts one iteration later. */
  lemma TimeoutFromStart(s: State, rounds: seq<Round>, k: nat)
    requires k < |Run(Enter(s), rounds).trace|
    ensures k < |rounds|
    ensures Run(Enter(s), rounds).trace[k].timeout
            == Timeout(Run(Enter(s), rounds[..k]).state.pollInterval, rounds[k].modeTimeout)
  {
    TraceAt(s, rounds, k);
  }

  /** That timeout is the earlier of two deadlines, the poll interval and a positive answer of
      preparetowait; without a poll interval it is whatever preparetowait answered. */
  lemma TimeoutIsEarliest(s: State, rounds: seq<Round>, k: nat)
    requires k < |Run(Enter(s), rounds).trace|
    ensures k < |rounds|
    ensures var poll, mode := Run(Enter(s), rounds[..k]).state.pollInterval, rounds[k].modeTimeout;
            var timeout := Run(Enter(s), rounds).trace[k].timeout;
            if poll < 0 then timeout == mode
            else timeout <= poll && (mode > 0 ==> timeout <= mode)
                 && (timeout == poll || (timeout == mode && mode > 0))
  {
    TimeoutFromStart(s, rounds, k);
  }

  /** Every handler invoked was registered, no null pointer is called, and the events of a
      wait fit the array that was sized for it. */
  lemma DispatchesRegistered(s: State, rounds: seq<Round>, k: nat)
    requires Counted(s) && k < |Run(Enter(s), rounds).trace|
    requires forall i | 0 <= i < |rounds| :: KernelReports(Run(Enter(s), rounds[..i]).state, rounds[i].wait)
    ensures k < |rounds|
    ensures var at, dispatched := Run(Enter(s), rounds[..k]).state, Run(Enter(s), rounds).trace[k].dispatched;
            && at.eventct == |s.registered|
            && dispatched == (if rounds[k].wait.Ready? then Invoked(rounds[k].wait.events) else [])
            && |dispatched| <= at.eventct
            && forall h | h in dispatched :: h in s.registered && !h.NoHandler?
  {
    TraceAt(s, rounds, k);
    RunKeepsSetup(Enter(s), rounds[..k]);
    if rounds[k].wait.Ready? {
      InvokedReported(rounds[k].wait.events);
    }
  }

  /** From initialisation on: whatever was registered, and whatever registered events the kernel
      reports, within the room it was given, the handlers invoked are those of all the events
      reported, in order; each is one whose fd was opened and accepted. */
  lemma DispatchesInitialised(config: Config, a: InitAnswers, rounds: seq<Round>, k: nat)
    requires var s := Init(Initial(config), a);
             && k < |Run(Enter(s), rounds).trace|
             && forall i | 0 <= i < |rounds| :: KernelReports(s, rounds[i].wait)
    ensures var s := Init(Initial(config), a);
            var dispatched := Run(Enter(s), rounds).trace[k].dispatched;
            && |dispatched| <= s.eventct == |s.registered| <= 3
            && (forall h | h in dispatched :: RegisteredBy(a, h))
            && k < |rounds| && (rounds[k].wait.Ready? ==>
                  && |dispatched| == |rounds[k].wait.events|
                  && forall i | 0 <= i < |dispatched| :: dispatched[i] == rounds[k].wait.events[i].handler)
  {
    var s := Init(Initial(config), a);
    InitCounts(config, a);
    forall i | 0 <= i < |rounds| ensures KernelReports(Run(Enter(s), rounds[..i]).state, rounds[i].wait) {
      RunKeepsSetup(Enter(s), rounds[..i]);
    }
    DispatchesRegistered(s, rounds, k);
    RunKeepsSetup(Enter(s), rounds[..k]);
    var dispatched := Run(Enter(s), rounds).trace[k].dispatched;
    forall h | h in dispatched ensures RegisteredBy(a, h) {
      InitRegisters(config, a, h);
    }
    if rounds[k].wait.Ready? {
      InitRegisters(config, a, NoHandler);
      InvokedAll(rounds[k].wait.events);
    }
  }

  lemma {:induction false} InvokedAll(events: seq<Fired>)
    requires forall i | 0 <= i < |events| :: !events[i].handler.NoHandler?
    ensures |Invoked(events)| == |events|
    ensures forall i | 0 <= i < |events| :: Invoked(events)[i] == events[i].handler
  {
    if events != [] {
      assert forall i | 0 <= i < |events[1..]| :: events[1..][i] == events[i + 1];
      InvokedAll(events[1..]);
    }
  }

  /** Null pointers are skipped and the others called, piece by piece in order. */
  lemma {:induction false} InvokedInOrder(a: seq<Fired>, b: seq<Fired>, e: Fired)
    ensures Invoked(a + b) == Invoked(a) + Invoked(b)
    ensures Invoked([e]) == if e.handler.NoHandler? then [] else [e.handler]
  {
    assert [e][1..] == [];
    if a == [] {
      assert a + b == b;
    } else {
      assert (a + b)[1..] == a[1..] + b;
      InvokedInOrder(a[1..], b, e);
    }
  }

  lemma {:induction false} InvokedReported(events: seq<Fired>)
    ensures |Invoked(events)| <= |events|
    ensures forall h | h in Invoked(events) :: !h.NoHandler? && exists i | 0 <= i < |events| :: events[i].handler == h
  {
    if events != [] {
      InvokedReported(events[1..]);
      forall h | h in Invoked(events) ensures !h.NoHandler? && exists i | 0 <= i < |events| :: events[i].handler == h {
        if h in Invoked(events[1..]) {
          var i :| 0 <= i < |events[1..]| && events[1..][i].handler == h;
          assert events[i + 1].handler == h;
        } else {
          assert events[0].handler == h;
        }
      }
    }
  }

  // ---------- coverage while awake ----------

  /** The timer is armed with the interval that was last recorded. */
  predicate AlarmFollows(s: State) {
    && s.wakealarmFd != -1
    && s.armed == if s.wakeInterval == -1 then 0 else s.wakeInterval
  }

  predicate TimerWorks(us: seq<Update>) { forall i | 0 <= i < |us| :: us[i].timerOk }

  predicate Awake(s: State) {
    AlarmFollows(s) && WakealarmEvent in s.registered && Covered(s) && s.config.fast > 0
  }

  lemma UpdateCovers(s: State, u: Update)
    requires Awake(s) && u.timerOk
    ensures Awake(BatteryUpdate(s, u))
  {}

  lemma {:induction false} UpdatesCover(s: State, us: seq<Update>)
    requires Awake(s) && TimerWorks(us)
    ensures Awake(Updates(s, us))
    decreases |us|
  {
    if us != [] {
      UpdateCovers(s, us[0]);
      assert forall i | 0 <= i < |us[1..]| :: us[1..][i] == us[i + 1];
      UpdatesCover(BatteryUpdate(s, us[0]), us[1..]);
    }
  }

  predicate RoundTimerWorks(r: Round) {
    && TimerWorks(r.chores)
    && (r.wait.Ready? ==> forall i | 0 <= i < |r.wait.events| :: TimerWorks(r.wait.events[i].updates))
  }

  predicate AllTimersWork(rounds: seq<Round>) { forall i | 0 <= i < |rounds| :: RoundTimerWorks(rounds[i]) }

  lemma {:induction false} DispatchCovers(s: State, events: seq<Fired>)
    requires Awake(s) && forall i | 0 <= i < |events| :: TimerWorks(events[i].updates)
    ensures Awake(Dispatch(s, events))
    decreases |events|
  {
    if events != [] {
      UpdatesCover(s, events[0].updates);
      DispatchCovers(if events[0].handler.NoHandler? then s else Updates(s, events[0].updates), events[1..]);
    }
  }

  /** Wake coverage in every reachable state, for any charger inputs: with a positive fast
      interval, a timer that was created, registered and armed, and that accepts every later
      setting, either the registered alarm runs at the fast rate or the poll interval is set. */
  lemma {:induction false} RunCovers(config: Config, a: InitAnswers, rounds: seq<Round>)
    requires config.fast > 0 && a.timerFd != -1 && a.timerOk && a.armOk
    requires AllTimersWork(rounds)
    ensures Awake(Run(Enter(Init(Initial(config), a)), rounds).state)
  {
    if rounds != [] {
      var init := rounds[..|rounds| - 1];
      assert forall i | 0 <= i < |init| :: init[i] == rounds[i];
      RunCovers(config, a, init);
      var before, r := Run(Enter(Init(Initial(config), a)), init), rounds[|rounds| - 1];
      assert RoundTimerWorks(r);
      UpdatesCover(before.state, r.chores);
      if r.wait.Ready? {
        DispatchCovers(if before.nevents == 0 then Updates(before.state, r.chores) else before.state, r.wait.events);
      }
    }
  }

  /** The condition on initialisation is exact: when it fails, the daemon is not even covered when
      it enters its loop. */
  lemma RunCoversIff(config: Config, a: InitAnswers)
    requires config.fast > 0
    ensures (forall rounds | AllTimersWork(rounds) :: Covered(Run(Enter(Init(Initial(config), a)), rounds).state))
            <==> a.timerFd != -1 && a.timerOk && a.armOk
  {
    if a.timerFd != -1 && a.timerOk && a.armOk {
      forall rounds | AllTimersWork(rounds) ensures Covered(Run(Enter(Init(Initial(config), a)), rounds).state) {
        RunCovers(config, a, rounds);
      }
    } else {
      InitRegisters(config, a, WakealarmEvent);
      assert AllTimersWork([]) && !Covered(Run(Enter(Init(Initial(config), a)), []).state);
    }
  }

  /** The intervals that the charger state calls for: fast or slow for the alarm, and a poll at the
      fast rate while the alarm is slower than that. */
  predicate Decided(s: State, charger: bool) {
    && s.wakeInterval == (if charger then s.config.fast else s.config.slow)
    && s.armed == (if s.wakeInterval == -1 then 0 else s.wakeInterval)
    && s.pollInterval == if charger || s.config.slow == s.config.fast || s.config.fast == -1 then -1
                         else s.config.fast * 1000
  }

  /** With a timer that accepts every setting, the last update alone decides the intervals,
      whatever came before it. */
  lemma {:induction false} LastUpdateDecides(s: State, us: seq<Update>)
    requires AlarmFollows(s) && TimerWorks(us) && us != []
    ensures AlarmFollows(Updates(s, us)) && Decided(Updates(s, us), us[|us| - 1].charger)
    ensures Updates(s, us).config == s.config
    decreases |us|
  {
    var next := BatteryUpdate(s, us[0]);
    if |us| > 1 {
      assert forall i | 0 <= i < |us[1..]| :: us[1..][i] == us[i + 1];
      LastUpdateDecides(next, us[1..]);
    } else {
      assert us[1..] == [];
    }
  }

  /** So after any run the intervals are those that the last update performed calls for. */
  lemma RunDecided(config: Config, a: InitAnswers, rounds: seq<Round>)
    requires a.timerFd != -1 && a.armOk
    ensures var l := Run(Enter(Init(Initial(config), a)), rounds);
            && |l.trace| <= |rounds|
            && var us := Performed(rounds, |l.trace|);
               us != [] && TimerWorks(us) ==> Decided(l.state, us[|us| - 1].charger)
  {
    var s := Init(Initial(config), a);
    RunPerforms(s, rounds);
    var us := Performed(rounds, |Run(Enter(s), rounds).trace|);
    if us != [] && TimerWorks(us) {
      LastUpdateDecides(s, us);
    }
  }

  /** When timer settings may fail, exactly when an update leaves the daemon covered: it
      switches to polling, or the alarm is registered and its timer already runs at the fast
      rate, or is newly and successfully set to it. */
  lemma UpdateCoversIff(s: State, u: Update)
    requires s.wakealarmFd != -1 && s.config.fast > 0
    ensures Covered(BatteryUpdate(s, u))
            <==> || IntervalFor(s, u.charger) != s.config.fast
                 || (&& WakealarmEvent in s.registered
                     && (s.armed == s.config.fast || (s.wakeInterval != s.config.fast && u.timerOk)))
  {}

  /** A failed return to the fast interval is never repaired while the charger stays on: the
      interval was recorded before the timer was set, so no later update sets it again. */
  lemma {:induction false} FailedSettingSticks(s: State, us: seq<Update>)
    requires s.config.fast > 0 && s.wakeInterval == s.config.fast && s.armed != s.config.fast
    requires s.pollInterval == -1
    requires forall i | 0 <= i < |us| :: us[i].charger
    ensures !Covered(Updates(s, us)) && Updates(s, us).timerSets == s.timerSets
    decreases |us|
  {
    if us != [] {
      assert us[0].charger;
      assert forall i | 0 <= i < |us[1..]| :: us[1..][i] == us[i + 1];
      FailedSettingSticks(BatteryUpdate(s, us[0]), us[1..]);
    }
  }

  /** Such a state is reached by the interval rules when the charger goes off and comes back
      with a failing timerfd_settime. Health::update never reports the charger off; for what
      this service can reach see FailedSettingReached. */
  lemma FailedReturnReached(a: InitAnswers)
    requires a.timerFd != -1 && a.armOk
    ensures var s := Updates(ServiceStart(a), [Update(false, true), Update(true, false)]);
            && s.wakeInterval == s.config.fast && s.armed == DEFAULT_SLOW && s.pollInterval == -1
            && !Covered(s)
  {}

  // ---------- this service ----------

  predicate AlwaysOnline(us: seq<Update>) { forall i | 0 <= i < |us| :: us[i].charger }

  /** What every round of this service satisfies: preparetowait returns -1 and every update
      reports the charger as online. */
  predicate OnlineRound(r: Round) {
    && r.modeTimeout == -1 && AlwaysOnline(r.chores)
    && (r.wait.Ready? ==> forall i | 0 <= i < |r.wait.events| :: AlwaysOnline(r.wait.events[i].updates))
  }

  lemma ServiceIsOnline(inputs: seq<ServiceInput>, i: nat)
    requires i < |inputs|
    ensures OnlineRound(ServiceRounds(inputs)[i])
  {
    assert ServiceRounds(inputs)[i] == ServiceRound(inputs[i]);
  }

  lemma {:induction false} OnlineUpdates(s: State, us: seq<Update>)
    requires AlwaysOnline(us) && s.pollInterval == -1 && s.wakeInterval == s.config.fast
    ensures Updates(s, us) == s
    decreases |us|
  {
    if us != [] {
      assert us[0].charger;
      assert forall i | 0 <= i < |us[1..]| :: us[1..][i] == us[i + 1];
      OnlineUpdates(BatteryUpdate(s, us[0]), us[1..]);
    }
  }

  lemma {:induction false} OnlineDispatch(s: State, events: seq<Fired>)
    requires s.pollInterval == -1 && s.wakeInterval == s.config.fast
    requires forall i | 0 <= i < |events| :: AlwaysOnline(events[i].updates)
    ensures Dispatch(s, events) == s
    decreases |events|
  {
    if events != [] {
      OnlineUpdates(s, events[0].updates);
      OnlineDispatch(s, events[1..]);
    }
  }

  lemma {:induction false} OnlineNeverMoves(s: State, rounds: seq<Round>)
    requires s.pollInterval == -1 && s.wakeInterval == s.config.fast
    requires forall i | 0 <= i < |rounds| :: OnlineRound(rounds[i])
    ensures Run(Enter(s), rounds).state == s
  {
    if rounds != [] {
      var init := rounds[..|rounds| - 1];
      assert forall i | 0 <= i < |init| :: init[i] == rounds[i];
      OnlineNeverMoves(s, init);
      var r := rounds[|rounds| - 1];
      assert OnlineRound(r);
      OnlineUpdates(s, r.chores);
      if r.wait.Ready? {
        OnlineDispatch(s, r.wait.events);
      }
    }
  }

  /** No run of this service ever changes the state that initialisation left: poll interval -1,
      wake interval fast, and no further timer setting, whether or not the timer fd could be
      created, and whatever the kernel answers. */
  lemma ServiceNeverMoves(a: InitAnswers, inputs: seq<ServiceInput>)
    ensures var s := ServiceStart(a);
            && ServiceRun(a, inputs).state == s
            && s.pollInterval == -1 && s.wakeInterval == s.config.fast
  {
    forall i | 0 <= i < |inputs| ensures OnlineRound(ServiceRounds(inputs)[i]) {
      ServiceIsOnline(inputs, i);
    }
    OnlineNeverMoves(ServiceStart(a), ServiceRounds(inputs));
  }

  /** So this service is covered, at every point of every run, if and only if the timer was
      created, registered and armed by initialisation. */
  lemma ServiceCoveredIff(a: InitAnswers, inputs: seq<ServiceInput>)
    ensures Covered(ServiceRun(a, inputs).state) <==> a.timerFd != -1 && a.timerOk && a.armOk
  {
    ServiceNeverMoves(a, inputs);
    InitRegisters(Config(DEFAULT_FAST, DEFAULT_SLOW), a, WakealarmEvent);
  }

  /** When arming failed, the fast interval is nevertheless recorded, so that no later update
      sets the timer again: it stays disarmed, with no poll instead, for ever. */
  lemma FailedSettingReached(a: InitAnswers, inputs: seq<ServiceInput>)
    requires a.timerFd != -1 && !a.armOk
    ensures var s := ServiceRun(a, inputs).state;
            && s.wakeInterval == s.config.fast && s.armed == 0 && s.pollInterval == -1
            && s.timerSets == 1 && !Covered(s)
  {
    ServiceNeverMoves(a, inputs);
  }

  /** Every epoll timeout of this service is infinite, and if an infinite wait never returns 0
      the loop's own chores run in the first iteration only. */
  lemma ServiceWaitsForever(a: InitAnswers, inputs: seq<ServiceInput>, k: nat)
    requires k < |ServiceRun(a, inputs).trace|
    ensures var trace := ServiceRun(a, inputs).trace;
            && trace[k].timeout == -1
            && ((forall i | 0 <= i < |inputs| && i < |trace| ::
                   trace[i].timeout == -1 ==> inputs[i].wait != ServiceReady([])) ==>
                  (trace[k].ranChores <==> k == 0))
  {
    var rounds := ServiceRounds(inputs);
    ServiceTimeout(a, inputs, k);
    ChoresExactly(ServiceStart(a), rounds, k);
    if k > 0 {
      ServiceTimeout(a, inputs, k - 1);
      assert rounds[k - 1] == ServiceRound(inputs[k - 1]);
      assert rounds[k - 1].wait == Ready([]) ==> inputs[k - 1].wait == ServiceReady([]);
    }
  }

  lemma ServiceTimeout(a: InitAnswers, inputs: seq<ServiceInput>, k: nat)
    requires k < |ServiceRun(a, inputs).trace|
    ensures k < |inputs| && ServiceRun(a, inputs).trace[k].timeout == -1
  {
    var rounds := ServiceRounds(inputs);
    TimeoutFromStart(ServiceStart(a), rounds, k);
    assert rounds[..k] == ServiceRounds(inputs[..k]);
    ServiceNeverMoves(a, inputs[..k]);
    ServiceIsOnline(inputs, k);
  }

  /** What an uncovered service misses: if the kernel reports only registered handlers and no
      disarmed timer, then in every run the alarm handler is never invoked, every wait is
      infinite, and, unless an infinite wait returns 0, the battery is looked at by the loop's
      own chores once. Only uevents and requests are left. */
  lemma UncoveredNeverLooks(a: InitAnswers, inputs: seq<ServiceInput>, k: nat)
    requires !Covered(ServiceStart(a)) && k < |ServiceRun(a, inputs).trace|
    requires forall i | 0 <= i < |inputs| ::
               && KernelReports(ServiceStart(a), ServiceRounds(inputs)[i].wait)
               && TimerFires(ServiceStart(a), ServiceRounds(inputs)[i].wait)
    ensures var seen := ServiceRun(a, inputs).trace[k];
            && WakealarmEvent !in seen.dispatched && seen.timeout == -1
            && ((forall i | 0 <= i < |inputs| :: inputs[i].wait != ServiceReady([])) ==> (seen.ranChores <==> k == 0))
  {
    var s, rounds := ServiceStart(a), ServiceRounds(inputs);
    ServiceCoveredIff(a, []);
    ServiceNeverMoves(a, []);
    InitRegisters(Config(DEFAULT_FAST, DEFAULT_SLOW), a, WakealarmEvent);
    TraceAt(s, rounds, k);
    ServiceWaitsForever(a, inputs, k);
    if rounds[k].wait.Ready? {
      InvokedReported(rounds[k].wait.events);
    }
  }

  /** A timer that is armed but not registered is such a case: the state looks as it should, but
      for the missing handler. */
  lemma UnregisteredAlarmReached(a: InitAnswers, inputs: seq<ServiceInput>)
    requires a.timerFd != -1 && a.armOk && !a.timerOk
    ensures var s := ServiceRun(a, inputs).state;
            && s.armed == s.wakeInterval == s.config.fast && s.pollInterval == -1
            && WakealarmEvent !in s.registered && !Covered(s)
  {
    ServiceNeverMoves(a, inputs);
    InitRegisters(Config(DEFAULT_FAST, DEFAULT_SLOW), a, WakealarmEvent);
  }
}
