/** The globals and functions of healthd_common.cpp. What the kernel and the hooks answer
    comes in as arguments. */
module HealthDaemonImpl {
  import opened HealthLoop

  class HealthDaemon {
    const config: Config
    var eventct: nat
    var awakePollInterval: int
    var wakealarmWakeInterval: int
    var wakealarmFd: int
    // kernel state: the epoll set, the armed interval, and the number of timer settings
    var registered: seq<Handler>
    var armed: int
    var timerSets: nat

    ghost function View(): State reads this {
      State(config, wakealarmFd, wakealarmWakeInterval, awakePollInterval, armed, timerSets, eventct, registered)
    }

    constructor (config: Config)
      ensures View() == Initial(config)
    {
      this.config := config;
      eventct, awakePollInterval, wakealarmWakeInterval, wakealarmFd := 0, -1, DEFAULT_FAST, 0;
      registered, armed, timerSets := [], 0, 0;
    }

    method RegisterEvent(handler: Handler, ok: bool) returns (result: int)
      modifies this
      ensures View() == Register(old(View()), handler, ok)
      ensures result == if ok then 0 else -1
    {
      if !ok {
        return -1;
      }
      registered := registered + [handler];
      eventct := eventct + 1;
      return 0;
    }

    method WakealarmSetInterval(interval: int, ok: bool)
      modifies this
      ensures View() == SetInterval(old(View()), interval, ok)
    {
      if wakealarmFd == -1 {
        return;
      }
      wakealarmWakeInterval := interval;
      var seconds := if interval == -1 then 0 else interval;
      timerSets := timerSets + 1;
      if ok {
        armed := seconds;
      }
    }

    method BatteryUpdateInternal(charger: bool, timerOk: bool)
      modifies this
      ensures View() == BatteryUpdate(old(View()), Update(charger, timerOk))
    {
      var newWakeInterval := if charger then config.fast else config.slow;
      if newWakeInterval != wakealarmWakeInterval {
        WakealarmSetInterval(newWakeInterval, timerOk);
      }
      if config.fast == -1 {
        awakePollInterval := -1;
      } else {
        awakePollInterval := if newWakeInterval == config.fast then -1 else config.fast * 1000;
      }
    }

    method PerformUpdates(us: seq<Update>)
      modifies this
      ensures View() == Updates(old(View()), us)
    {
      var i := 0;
      while i < |us|
        invariant 0 <= i <= |us|
        invariant Updates(View(), us[i..]) == Updates(old(View()), us)
      {
        assert us[i..][1..] == us[i + 1..];
        BatteryUpdateInternal(us[i].charger, us[i].timerOk);
        assert us[i] == Update(us[i].charger, us[i].timerOk);
        i := i + 1;
      }
    }

    method InitWakealarm(a: InitAnswers)
      modifies this
      ensures View() == WakealarmInit(old(View()), a)
    {
      wakealarmFd := a.timerFd;
      if wakealarmFd == -1 {
        return;
      }
      var _ := RegisterEvent(WakealarmEvent, a.timerOk);
      WakealarmSetInterval(config.fast, a.armOk);
    }

    method InitUevent(a: InitAnswers)
      modifies this
      ensures View() == if a.ueventFd >= 0 then Register(old(View()), UeventEvent, a.ueventOk) else old(View())
    {
      if a.ueventFd < 0 {
        return;
      }
      var _ := RegisterEvent(UeventEvent, a.ueventOk);
    }

    /** The init hook of this service: it polls the binder through the same epoll set. */
    method InitMode(a: InitAnswers)
      modifies this
      ensures View() == if a.binderFd >= 0 then Register(old(View()), BinderEvent, a.binderOk) else old(View())
    {
      if a.binderFd >= 0 {
        var _ := RegisterEvent(BinderEvent, a.binderOk);
      }
    }

    method HealthdInit(a: InitAnswers) returns (result: int)
      modifies this
      ensures result == if a.epollFd == -1 then -1 else 0
      ensures View() == if a.epollFd == -1 then old(View()) else Init(old(View()), a)
    {
      if a.epollFd == -1 {
        return -1;
      }
      InitMode(a);
      InitWakealarm(a);
      InitUevent(a);
      return 0;
    }

    /** epoll_wait: writes at most `events.Length` entries and returns their number, or -1. */
    method EpollWait(events: array<Fired>, w: Wait) returns (nevents: int)
      requires w.Ready? ==> |w.events| <= events.Length
      modifies events
      ensures nevents == if w.Ready? then |w.events| else -1
      ensures w.Ready? ==> events[..nevents] == w.events
    {
      if !w.Ready? {
        return -1;
      }
      nevents := |w.events|;
      var i := 0;
      while i < nevents
        invariant 0 <= i <= nevents
        invariant events[..i] == w.events[..i]
      {
        events[i] := w.events[i];
        i := i + 1;
      }
    }

    /** The dispatch loop over the first `nevents` entries. */
    method DispatchEvents(events: array<Fired>, nevents: nat) returns (invoked: seq<Handler>)
      requires nevents <= events.Length && events as object != this
      modifies this
      ensures View() == Dispatch(old(View()), events[..nevents])
      ensures invoked == Invoked(events[..nevents])
    {
      ghost var all := events[..nevents];
      invoked := [];
      var n := 0;
      while n < nevents
        invariant 0 <= n <= nevents && events[..nevents] == all
        invariant Dispatch(View(), all[n..]) == Dispatch(old(View()), all)
        invariant invoked + Invoked(all[n..]) == Invoked(all)
      {
        assert all[n..][1..] == all[n + 1..] && all[n..][0] == events[n];
        if !events[n].handler.NoHandler? {
          invoked := invoked + [events[n].handler];
          PerformUpdates(events[n].updates);
        }
        n := n + 1;
      }
    }

    /** healthd_mainloop over any finite number of rounds: it stops early only when a wait
        fails with something other than EINTR. */
    method MainLoop(rounds: seq<Round>) returns (nevents: int, running: bool, trace: seq<Observed>)
      requires forall i | 0 <= i < |rounds| :: KernelReports(Run(Enter(View()), rounds[..i]).state, rounds[i].wait)
      modifies this
      ensures Run(Enter(old(View())), rounds) == Loop(View(), nevents, running, trace)
    {
      ghost var start := Enter(View());
      nevents, running, trace := 0, true, [];
      var i := 0;
      while i < |rounds|
        invariant 0 <= i <= |rounds|
        invariant running && Run(start, rounds[..i]) == Loop(View(), nevents, running, trace)
      {
        RunNext(start, rounds, i);
        var events := new Fired[eventct];
        var timeout := awakePollInterval;
        var ranChores := nevents == 0;
        if ranChores {
          PerformUpdates(rounds[i].chores);
        }
        var modeTimeout := rounds[i].modeTimeout;
        if timeout < 0 || (modeTimeout > 0 && modeTimeout < timeout) {
          timeout := modeTimeout;
        }
        nevents := EpollWait(events, rounds[i].wait);
        i := i + 1;
        if nevents == -1 {
          trace := trace + [Observed(ranChores, timeout, [])];
          if rounds[i - 1].wait.Interrupted? {
            continue;
          }
          running := false;
          break;
        }
        var invoked := DispatchEvents(events, nevents);
        trace := trace + [Observed(ranChores, timeout, invoked)];
      }
      if running {
        assert rounds[..i] == rounds;
      } else {
        LeftForGood(start, rounds, i);
      }
    }
  }

  lemma RunNext(l: Loop, rounds: seq<Round>, i: nat)
    requires i < |rounds| && Run(l, rounds[..i]).running
    ensures Run(l, rounds[..i + 1]) == Iterate(Run(l, rounds[..i]), rounds[i])
  {
    assert rounds[..i + 1][..i] == rounds[..i];
  }

  /** Once the loop has left, further rounds change nothing. */
  lemma {:induction false} LeftForGood(l: Loop, rounds: seq<Round>, i: nat)
    requires i <= |rounds| && !Run(l, rounds[..i]).running
    ensures Run(l, rounds) == Run(l, rounds[..i])
    decreases |rounds|
  {
    if i == |rounds| {
      assert rounds[..i] == rounds;
    } else {
      assert rounds[..|rounds| - 1][..i] == rounds[..i];
      LeftForGood(l, rounds[..|rounds| - 1], i);
    }
  }
}
