/** The callback registry of Health: lock-protected steps, what each delivers, and what a
    whole history of steps implies. */
module Registry {
  import opened Options
  import Daemon = HealthDaemonImpl
  import Loop = HealthLoop

  /** interfacesEqual compares object identity, so a callback is its identity. */
  type Callback = int

  /** How a call to healthInfoChanged comes back. */
  datatype Reply = Fine | DeadObject | OtherFailure

  /** What can be observed of the registry, in order. */
  datatype Event =
    | Registered(c: Callback)
    | Cleared(c: Callback)
    | Delivered(c: Callback, reply: Reply)

  type Log = seq<Event>

  /** What remains of the first `k` entries when those equal to `c` are erased. */
  function Without(s: seq<Callback>, c: Callback, k: nat): seq<Callback>
    requires k <= |s|
  {
    if k == 0 then []
    else if s[k - 1] == c then Without(s, c, k - 1)
    else Without(s, c, k - 1) + [s[k - 1]]
  }

  function WithoutAll(s: seq<Callback>, c: Callback): seq<Callback> { Without(s, c, |s|) }

  /** How often `c` occurs among the first `k` entries. */
  function Count(s: seq<Callback>, k: nat, c: Callback): nat
    requires k <= |s|
  {
    if k == 0 then 0 else Count(s, k - 1, c) + if s[k - 1] == c then 1 else 0
  }

  function Copies(s: seq<Callback>, c: Callback): nat { multiset(s)[c] }

  lemma CopiesPush(s: seq<Callback>, x: Callback, c: Callback)
    ensures Copies(s + [x], c) == Copies(s, c) + if x == c then 1 else 0
  {}

  lemma {:induction false} CountPrefix(s: seq<Callback>, k: nat, c: Callback)
    requires k <= |s|
    ensures Count(s, k, c) == Copies(s[..k], c)
  {
    if k > 0 {
      CountPrefix(s, k - 1, c);
      assert s[..k] == s[..k - 1] + [s[k - 1]];
    }
  }

  lemma CountAll(s: seq<Callback>, c: Callback)
    ensures Count(s, |s|, c) == Copies(s, c)
  {
    CountPrefix(s, |s|, c);
    assert s[..|s|] == s;
  }

  lemma {:induction false} CountGrows(s: seq<Callback>, j: nat, k: nat, c: Callback)
    requires j <= k <= |s|
    ensures Count(s, j, c) <= Count(s, k, c)
  {
    if j < k {
      CountGrows(s, j, k - 1, c);
    }
  }

  lemma {:induction false} WithoutCopies(s: seq<Callback>, c: Callback, k: nat, x: Callback)
    requires k <= |s|
    ensures Copies(Without(s, c, k), x) == if x == c then 0 else Count(s, k, x)
  {
    if k > 0 {
      WithoutCopies(s, c, k - 1, x);
      CopiesPush(Without(s, c, k - 1), s[k - 1], x);
    }
  }

  /** The erase loop removes all entries equal to `c` and none of the others. */
  lemma ErasedExactly(s: seq<Callback>, c: Callback, x: Callback)
    ensures Copies(WithoutAll(s, c), x) == if x == c then 0 else Copies(s, x)
  {
    WithoutCopies(s, c, |s|, x);
    CountAll(s, x);
  }

  lemma {:induction false} WithoutConcat(a: seq<Callback>, b: seq<Callback>, c: Callback, k: nat)
    requires k <= |a| + |b|
    ensures Without(a + b, c, k)
            == if k <= |a| then Without(a, c, k) else WithoutAll(a, c) + Without(b, c, k - |a|)
  {
    if k > 0 {
      WithoutConcat(a, b, c, k - 1);
    }
  }

  /** The erase loop keeps the order of what it leaves: it is a filter, working piece by piece. */
  lemma ErasedInOrder(a: seq<Callback>, b: seq<Callback>, c: Callback, x: Callback)
    ensures WithoutAll(a + b, c) == WithoutAll(a, c) + WithoutAll(b, c)
    ensures WithoutAll([x], c) == if x == c then [] else [x]
  {
    WithoutConcat(a, b, c, |a + b|);
    assert Without([x], c, 1) == if x == c then Without([x], c, 0) else Without([x], c, 0) + [x];
  }

  /** What remains of the first `k` entries when those whose call was answered DeadObject
      are erased. */
  function Survivors(s: seq<Callback>, replies: seq<Reply>, k: nat): seq<Callback>
    requires k <= |s| <= |replies|
  {
    if k == 0 then []
    else if replies[k - 1].DeadObject? then Survivors(s, replies, k - 1)
    else Survivors(s, replies, k - 1) + [s[k - 1]]
  }

  /** One delivery for each of the first `k` entries, in order. */
  function Deliveries(s: seq<Callback>, replies: seq<Reply>, k: nat): (log: Log)
    requires k <= |s| <= |replies|
    ensures |log| == k
  {
    if k == 0 then [] else Deliveries(s, replies, k - 1) + [Delivered(s[k - 1], replies[k - 1])]
  }

  // ---------- the steps ----------

  /** The lock-protected steps. */
  datatype Op =
    | Register(callback: Option<Callback>)
    | Remove(callback: Option<Callback>)  // unregisterCallback or serviceDied
    | Notify(replies: nat -> Reply)       // replies(i) is how the i-th call comes back

  datatype State = State(callbacks: seq<Callback>, log: Log)

  function RepliesTo(s: seq<Callback>, replies: nat -> Reply): (r: seq<Reply>)
    ensures |r| == |s| && forall i | 0 <= i < |s| :: r[i] == replies(i)
  {
    seq(|s|, i requires 0 <= i => replies(i))
  }

  function Step(s: State, op: Op): State {
    match op
    case Register(c) => if c.None? then s else State(s.callbacks + [c.value], s.log + [Registered(c.value)])
    case Remove(c) => if c.None? then s else State(WithoutAll(s.callbacks, c.value), s.log + [Cleared(c.value)])
    case Notify(replies) =>
      var r := RepliesTo(s.callbacks, replies);
      State(Survivors(s.callbacks, r, |s.callbacks|), s.log + Deliveries(s.callbacks, r, |s.callbacks|))
  }

  // ---------- the class ----------

  /** The mode operations installed in healthd, as far as update() looks at them. */
  datatype ModeOps = NotInstalled | Installed(batteryUpdate: bool)

  datatype Result = SUCCESS | NOT_FOUND | UNKNOWN

  class Health {
    const daemon: Daemon.HealthDaemon
    var callbacks: seq<Callback>
    var modeOps: ModeOps
    var log: Log

    ghost function View(): State reads this { State(callbacks, log) }

    constructor (daemon: Daemon.HealthDaemon)
      ensures this.daemon == daemon && View() == State([], []) && modeOps == NotInstalled
    {
      this.daemon, callbacks, log, modeOps := daemon, [], [], NotInstalled;
    }

    /** Adjusts the wake and poll intervals for an online charger. It does not notify.
        `timerOk` is how a timer setting would come out. */
    method Update(timerOk: bool) returns (r: Result)
      modifies daemon
      ensures r == if modeOps == Installed(true) then SUCCESS else UNKNOWN
      ensures daemon.View()
              == if r == SUCCESS then Loop.BatteryUpdate(old(daemon.View()), Loop.ServiceUpdate(timerOk))
                 else old(daemon.View())
    {
      if modeOps.NotInstalled? || !modeOps.batteryUpdate {
        return UNKNOWN;
      }
      var chargerOnline := true;
      daemon.BatteryUpdateInternal(chargerOnline, timerOk);
      return SUCCESS;
    }

    method RegisterCallback(callback: Option<Callback>, timerOk: bool) returns (r: Result)
      modifies this, daemon
      ensures View() == Step(old(View()), Register(callback))
      ensures modeOps == old(modeOps)
      ensures r == if callback.None? || modeOps == Installed(true) then SUCCESS else UNKNOWN
      ensures daemon.View()
              == if callback.Some? && r == SUCCESS
                 then Loop.BatteryUpdate(old(daemon.View()), Loop.ServiceUpdate(timerOk)) else old(daemon.View())
    {
      if callback.None? {
        return SUCCESS;
      }
      callbacks := callbacks + [callback.value];
      log := log + [Registered(callback.value)];
      r := Update(timerOk);
    }

    /** std::vector::erase at `it`. */
    method EraseAt(it: nat)
      requires it < |callbacks|
      modifies this`callbacks
      ensures |callbacks| == |old(callbacks)| - 1
      ensures callbacks[..it] == old(callbacks)[..it] && callbacks[it..] == old(callbacks)[it + 1..]
    {
      callbacks := callbacks[..it] + callbacks[it + 1..];
    }

    method UnregisterCallbackInternal(callback: Option<Callback>) returns (removed: bool)
      modifies this`callbacks, this`log
      ensures View() == Step(old(View()), Remove(callback))
      ensures removed <==> callback.Some? && callback.value in old(callbacks)
    {
      if callback.None? {
        return false;
      }
      var c := callback.value;
      removed := false;
      ghost var all, k := callbacks, 0;
      var it := 0;
      while it < |callbacks|
        invariant 0 <= k <= |all| && it <= |callbacks|
        invariant callbacks[..it] == Without(all, c, k) && callbacks[it..] == all[k..]
        invariant removed <==> exists i | 0 <= i < k :: all[i] == c
        invariant log == old(log)
        decreases |all| - k
      {
        assert callbacks[it] == all[k..][0] == all[k] && all[k..][1..] == all[k + 1..];
        k := k + 1;
        if callbacks[it] == c {
          EraseAt(it);
          removed := true;
        } else {
          assert callbacks[..it + 1] == callbacks[..it] + [callbacks[it]];
          it := it + 1;
        }
      }
      assert k == |all| && callbacks[..it] == callbacks;
      log := log + [Cleared(c)];
    }

    method UnregisterCallback(callback: Option<Callback>) returns (r: Result)
      modifies this`callbacks, this`log
      ensures View() == Step(old(View()), Remove(callback))
      ensures r == if callback.Some? && callback.value in old(callbacks) then SUCCESS else NOT_FOUND
    {
      var removed := UnregisterCallbackInternal(callback);
      r := if removed then SUCCESS else NOT_FOUND;
    }

    /** `who` is what promoting the weak reference gives. */
    method ServiceDied(who: Option<Callback>)
      modifies this`callbacks, this`log
      ensures View() == Step(old(View()), Remove(who))
    {
      var _ := UnregisterCallbackInternal(who);
    }

    method NotifyListeners(replies: nat -> Reply)
      modifies this`callbacks, this`log
      ensures View() == Step(old(View()), Notify(replies))
    {
      ghost var answers := RepliesTo(callbacks, replies);
      ghost var all := callbacks;
      var calls := 0;
      var it := 0;
      while it < |callbacks|
        invariant 0 <= calls <= |all| && it <= |callbacks|
        invariant callbacks[..it] == Survivors(all, answers, calls) && callbacks[it..] == all[calls..]
        invariant log == old(log) + Deliveries(all, answers, calls)
        decreases |all| - calls
      {
        assert callbacks[it] == all[calls..][0] == all[calls] && all[calls..][1..] == all[calls + 1..];
        LogNext(old(log), all, answers, calls + 1);
        var reply := replies(calls);
        log := log + [Delivered(callbacks[it], reply)];
        calls := calls + 1;
        if reply.DeadObject? {
          EraseAt(it);
        } else {
          assert callbacks[..it + 1] == callbacks[..it] + [callbacks[it]];
          it := it + 1;
        }
      }
      assert calls == |all| && callbacks[..it] == callbacks;
    }
  }

  // ---------- whole histories ----------

  function Run(ops: seq<Op>): State {
    if ops == [] then State([], []) else Step(Run(ops[..|ops| - 1]), ops[|ops| - 1])
  }

  /** What a log says about `c` alone: registrations since it was last cleared, less the dead
      reports since then. */
  function Standing(log: Log, c: Callback): int {
    if log == [] then 0 else
    var before := Standing(log[..|log| - 1], c);
    match log[|log| - 1]
    case Registered(x) => if x == c then before + 1 else before
    case Cleared(x) => if x == c then 0 else before
    case Delivered(x, reply) => if x == c && reply.DeadObject? then before - 1 else before
  }

  /** Every delivery in the log went to a callback that was standing at that moment. */
  predicate OnlyStandingServed(log: Log) {
    forall i | 0 <= i < |log| :: log[i].Delivered? ==> Standing(log[..i], log[i].c) > 0
  }

  lemma StandingSnoc(log: Log, e: Event, c: Callback)
    ensures Standing(log + [e], c)
            == match e
               case Registered(x) => if x == c then Standing(log, c) + 1 else Standing(log, c)
               case Cleared(x) => if x == c then 0 else Standing(log, c)
               case Delivered(x, reply) =>
                 if x == c && reply.DeadObject? then Standing(log, c) - 1 else Standing(log, c)
  {
    assert (log + [e])[..|log|] == log;
  }

  lemma ServedSnoc(log: Log, e: Event)
    requires OnlyStandingServed(log) && (e.Delivered? ==> Standing(log, e.c) > 0)
    ensures OnlyStandingServed(log + [e])
  {
    forall i | 0 <= i < |log| + 1 && (log + [e])[i].Delivered?
      ensures Standing((log + [e])[..i], (log + [e])[i].c) > 0
    {
      if i < |log| {
        assert (log + [e])[..i] == log[..i];
      } else {
        assert (log + [e])[..i] == log;
      }
    }
  }

  /** The dead reports among the first `k` calls that concern `c`. */
  function Dead(s: seq<Callback>, replies: seq<Reply>, k: nat, c: Callback): nat
    requires k <= |s| <= |replies|
  {
    if k == 0 then 0 else
    Dead(s, replies, k - 1, c) + if s[k - 1] == c && replies[k - 1].DeadObject? then 1 else 0
  }

  /** Each dead report costs the callback one entry ... */
  lemma {:induction false} SurvivorsCopies(s: seq<Callback>, replies: seq<Reply>, k: nat, c: Callback)
    requires k <= |s| <= |replies|
    ensures Copies(Survivors(s, replies, k), c) == Count(s, k, c) - Dead(s, replies, k, c)
  {
    if k > 0 {
      SurvivorsCopies(s, replies, k - 1, c);
      CopiesPush(Survivors(s, replies, k - 1), s[k - 1], c);
    }
  }

  /** ... and that is how the log accounts for it. */
  lemma {:induction false} NotifyStanding(log: Log, s: seq<Callback>, replies: seq<Reply>, k: nat, c: Callback)
    requires k <= |s| <= |replies|
    ensures Standing(log + Deliveries(s, replies, k), c) == Standing(log, c) - Dead(s, replies, k, c)
  {
    if k == 0 {
      assert log + [] == log;
    } else {
      NotifyStanding(log, s, replies, k - 1, c);
      LogNext(log, s, replies, k);
      StandingSnoc(log + Deliveries(s, replies, k - 1), Delivered(s[k - 1], replies[k - 1]), c);
    }
  }

  lemma LogNext(log: Log, s: seq<Callback>, replies: seq<Reply>, k: nat)
    requires 0 < k <= |s| <= |replies|
    ensures log + Deliveries(s, replies, k)
            == log + Deliveries(s, replies, k - 1) + [Delivered(s[k - 1], replies[k - 1])]
  {}

  /** Before its call number k a notify step has not yet used up the entries of that callback. */
  lemma StillStanding(s: seq<Callback>, replies: seq<Reply>, k: nat, c: Callback)
    requires k < |s| <= |replies| && s[k] == c
    ensures Dead(s, replies, k, c) < Copies(s, c)
  {
    SurvivorsCopies(s, replies, k, c);
    CountGrows(s, k + 1, |s|, c);
    CountAll(s, c);
  }

  lemma {:induction false} NotifyServes(s: State, replies: seq<Reply>, k: nat)
    requires |replies| >= |s.callbacks| && k <= |s.callbacks|
    requires OnlyStandingServed(s.log) && forall c :: Accounted(s, c)
    ensures OnlyStandingServed(s.log + Deliveries(s.callbacks, replies, k))
  {
    if k == 0 {
      assert s.log + [] == s.log;
    } else {
      NotifyServes(s, replies, k - 1);
      var c := s.callbacks[k - 1];
      assert Accounted(s, c);
      NotifyStanding(s.log, s.callbacks, replies, k - 1, c);
      StillStanding(s.callbacks, replies, k - 1, c);
      ServedSnoc(s.log + Deliveries(s.callbacks, replies, k - 1), Delivered(c, replies[k - 1]));
      LogNext(s.log, s.callbacks, replies, k);
    }
  }

  /** The registry holds `c` exactly as often as the log says it is standing. */
  predicate Accounted(s: State, c: Callback) { Standing(s.log, c) == Copies(s.callbacks, c) }

  lemma StepAccounts(s: State, op: Op, c: Callback)
    requires Accounted(s, c)
    ensures Accounted(Step(s, op), c)
  {
    match op
    case Register(x) =>
      if x.Some? {
        StandingSnoc(s.log, Registered(x.value), c);
      }
    case Remove(x) =>
      if x.Some? {
        StandingSnoc(s.log, Cleared(x.value), c);
        ErasedExactly(s.callbacks, x.value, c);
      }
    case Notify(replies) =>
      var r, n := RepliesTo(s.callbacks, replies), |s.callbacks|;
      NotifyStanding(s.log, s.callbacks, r, n, c);
      SurvivorsCopies(s.callbacks, r, n, c);
      CountAll(s.callbacks, c);
  }

  lemma {:induction false} RegistryAccounts(ops: seq<Op>, c: Callback)
    ensures Accounted(Run(ops), c)
  {
    if ops != [] {
      RegistryAccounts(ops[..|ops| - 1], c);
      StepAccounts(Run(ops[..|ops| - 1]), ops[|ops| - 1], c);
    }
  }

  /** In every run, only callbacks standing at that moment are ever called. */
  lemma {:induction false} RunServesStanding(ops: seq<Op>)
    ensures OnlyStandingServed(Run(ops).log)
  {
    if ops != [] {
      var s, op := Run(ops[..|ops| - 1]), ops[|ops| - 1];
      RunServesStanding(ops[..|ops| - 1]);
      match op
      case Register(c) =>
        if c.Some? {
          ServedSnoc(s.log, Registered(c.value));
        }
      case Remove(c) =>
        if c.Some? {
          ServedSnoc(s.log, Cleared(c.value));
        }
      case Notify(replies) =>
        var r, n := RepliesTo(s.callbacks, replies), |s.callbacks|;
        forall c ensures Accounted(s, c) {
          RegistryAccounts(ops[..|ops| - 1], c);
        }
        NotifyServes(s, r, n);
    }
  }

  function DeliveriesTo(log: Log, c: Callback): nat {
    if log == [] then 0 else
    DeliveriesTo(log[..|log| - 1], c) + if log[|log| - 1].Delivered? && log[|log| - 1].c == c then 1 else 0
  }

  lemma {:induction false} DeliveriesCount(s: seq<Callback>, replies: seq<Reply>, k: nat, c: Callback)
    requires k <= |s| <= |replies|
    ensures DeliveriesTo(Deliveries(s, replies, k), c) == Count(s, k, c)
  {
    if k > 0 {
      DeliveriesCount(s, replies, k - 1, c);
      assert Deliveries(s, replies, k)[..k - 1] == Deliveries(s, replies, k - 1);
    }
  }

  /** A notify step calls every entry once, in order, and so delivers to each callback
      exactly as often as it is standing. */
  lemma NotifyDeliversStanding(ops: seq<Op>, replies: nat -> Reply, c: Callback)
    ensures var s := Run(ops);
            var d := Deliveries(s.callbacks, RepliesTo(s.callbacks, replies), |s.callbacks|);
            && Run(ops + [Notify(replies)]).log == s.log + d
            && DeliveriesTo(d, c) == Standing(s.log, c)
  {
    var s := Run(ops);
    assert (ops + [Notify(replies)])[..|ops|] == ops;
    RegistryAccounts(ops, c);
    DeliveriesCount(s.callbacks, RepliesTo(s.callbacks, replies), |s.callbacks|, c);
    CountAll(s.callbacks, c);
  }

  /** A callback that was not standing and later is has registered in between. */
  lemma {:induction false} RegisteredBetween(log: Log, c: Callback, i: nat, j: nat)
    requires i <= j <= |log| && Standing(log[..i], c) <= 0 < Standing(log[..j], c)
    ensures exists k | i <= k < j :: log[k] == Registered(c)
    decreases j
  {
    assert log[..j] == log[..j - 1] + [log[j - 1]];
    StandingSnoc(log[..j - 1], log[j - 1], c);
    if log[j - 1] != Registered(c) {
      RegisteredBetween(log, c, i, j - 1);
    }
  }

  /** After an unregistration or a death, nothing is delivered until the callback registers
      again. */
  lemma DeliveryNeedsRegistration(ops: seq<Op>, i: nat, j: nat)
    requires i < j < |Run(ops).log|
    requires Run(ops).log[j].Delivered? && Run(ops).log[i] == Cleared(Run(ops).log[j].c)
    ensures exists k | i < k < j :: Run(ops).log[k] == Registered(Run(ops).log[j].c)
  {
    var log := Run(ops).log;
    var c := log[j].c;
    RunServesStanding(ops);
    assert Standing(log[..j], c) > 0;
    assert log[..i + 1] == log[..i] + [log[i]];
    StandingSnoc(log[..i], log[i], c);
    RegisteredBetween(log, c, i + 1, j);
  }

  /** After a notify step a callback that was standing is gone if and only if every one of its
      calls was answered DeadObject: a dead report removes only the entry it answers. */
  lemma GoneIffAllDead(ops: seq<Op>, replies: nat -> Reply, c: Callback)
    ensures var s := Run(ops);
            Standing(Run(ops + [Notify(replies)]).log, c) == 0
            <==> forall i | 0 <= i < |s.callbacks| :: s.callbacks[i] == c ==> replies(i).DeadObject?
  {
    var s := Run(ops);
    assert (ops + [Notify(replies)])[..|ops|] == ops;
    RegistryAccounts(ops + [Notify(replies)], c);
    var r, n := RepliesTo(s.callbacks, replies), |s.callbacks|;
    SurvivesIff(s.callbacks, r, n, c);
    assert Run(ops + [Notify(replies)]).callbacks == Survivors(s.callbacks, r, n);
  }

  lemma {:induction false} SurvivesIff(s: seq<Callback>, replies: seq<Reply>, k: nat, c: Callback)
    requires k <= |s| <= |replies|
    ensures c in Survivors(s, replies, k) <==> exists i | 0 <= i < k :: s[i] == c && !replies[i].DeadObject?
  {
    if k > 0 {
      SurvivesIff(s, replies, k - 1, c);
      assert c in Survivors(s, replies, k) <==>
             c in Survivors(s, replies, k - 1) || (s[k - 1] == c && !replies[k - 1].DeadObject?);
    }
  }

  // ---------- after a dead-object report ----------

  predicate DeadReport(e: Event, c: Callback) { e == Delivered(c, DeadObject) }

  /** After the dead report of a callback that was standing once, nothing is delivered to it
      until it registers again. */
  lemma DeadOnceNeedsRegistration(ops: seq<Op>, i: nat, j: nat)
    requires i < j < |Run(ops).log| && Run(ops).log[j].Delivered?
    requires DeadReport(Run(ops).log[i], Run(ops).log[j].c)
    requires Standing(Run(ops).log[..i], Run(ops).log[j].c) == 1
    ensures exists k | i < k < j :: Run(ops).log[k] == Registered(Run(ops).log[j].c)
  {
    var log := Run(ops).log;
    var c := log[j].c;
    RunServesStanding(ops);
    assert Standing(log[..j], c) > 0;
    assert log[..i + 1] == log[..i] + [log[i]];
    StandingSnoc(log[..i], log[i], c);
    RegisteredBetween(log, c, i + 1, j);
  }

  /** In `log`, nothing is delivered to `c` after position `at` before it registers again. */
  predicate Silenced(log: Log, at: nat, c: Callback) {
    forall j | at < j < |log| && log[j].Delivered? && log[j].c == c ::
      exists k | at < k < j :: log[k] == Registered(c)
  }

  lemma {:induction false} DeliveriesAt(s: seq<Callback>, replies: seq<Reply>, k: nat, i: nat)
    requires i < k <= |s| <= |replies|
    ensures Deliveries(s, replies, k)[i] == Delivered(s[i], replies[i])
  {
    if i < k - 1 {
      DeliveriesAt(s, replies, k - 1, i);
    }
  }

  /** Steps only ever add to the log. */
  lemma {:induction false} LogGrows(ops: seq<Op>, more: seq<Op>)
    ensures Run(ops).log <= Run(ops + more).log
  {
    if more == [] {
      assert ops + more == ops;
    } else {
      LogGrows(ops, more[..|more| - 1]);
      assert (ops + more)[..|ops + more| - 1] == ops + more[..|more| - 1];
    }
  }

  /** Deliveries to others leave the standing of `c` alone. */
  lemma {:induction false} StandingUnmoved(log: Log, c: Callback, i: nat, j: nat)
    requires i <= j <= |log| && forall k | i <= k < j :: log[k].Delivered? && log[k].c != c
    ensures Standing(log[..j], c) == Standing(log[..i], c)
    decreases j
  {
    if i < j {
      assert log[..j] == log[..j - 1] + [log[j - 1]];
      StandingSnoc(log[..j - 1], log[j - 1], c);
      StandingUnmoved(log, c, i, j - 1);
    }
  }

  lemma RunSnoc(ops: seq<Op>, op: Op)
    ensures Run(ops + [op]) == Step(Run(ops), op)
  {
    assert (ops + [op])[..|ops|] == ops;
  }

  /** A notify step logs the calls of the entries, in order, after what was there. */
  lemma NotifyLog(s: State, replies: nat -> Reply)
    ensures var log := Step(s, Notify(replies)).log;
            && |log| == |s.log| + |s.callbacks| && log[..|s.log|] == s.log
            && forall k | |s.log| <= k < |log| ::
                 log[k] == Delivered(s.callbacks[k - |s.log|], replies(k - |s.log|))
  {
    var r := RepliesTo(s.callbacks, replies);
    forall k | 0 <= k < |s.callbacks|
      ensures Deliveries(s.callbacks, r, |s.callbacks|)[k] == Delivered(s.callbacks[k], replies(k))
    {
      DeliveriesAt(s.callbacks, r, |s.callbacks|, k);
    }
  }

  lemma CalledAgain(log: Log, at: nat, j: nat, c: Callback)
    requires at < j < |log| && log[j].Delivered? && log[j].c == c
    requires forall k | at < k < j :: log[k].Delivered?
    ensures !Silenced(log, at, c)
  {}

  /** A callback that was standing more than once is called again after its dead report, or
      is still standing when the deliveries end. */
  lemma DeadOnceOfMany(log: Log, at: nat, c: Callback)
    requires at < |log| && DeadReport(log[at], c) && Standing(log[..at], c) > 1
    requires forall k | at < k < |log| :: log[k].Delivered?
    ensures !Silenced(log, at, c) || Standing(log, c) > 0
  {
    if j :| at < j < |log| && log[j].c == c {
      CalledAgain(log, at, j, c);
    } else {
      assert log[..at + 1] == log[..at] + [log[at]] && log[..|log|] == log;
      StandingSnoc(log[..at], log[at], c);
      StandingUnmoved(log, c, at + 1, |log|);
    }
  }

  lemma KeptIsCalled(t: State, at: nat, c: Callback)
    requires c in t.callbacks && at < |t.log| && forall k | at < k < |t.log| :: t.log[k].Delivered?
    ensures !Silenced(Step(t, Notify(_ => Fine)).log, at, c)
  {
    NotifyLog(t, _ => Fine);
    var log := Step(t, Notify(_ => Fine)).log;
    var x :| 0 <= x < |t.callbacks| && t.callbacks[x] == c;
    assert forall k | 0 <= k < |t.log| :: log[k] == log[..|t.log|][k];
    CalledAgain(log, at, |t.log| + x, c);
  }

  /** So it is called again, without registering, by the end of the next notify step. */
  lemma StillCalled(s: State, replies: nat -> Reply, at: nat, c: Callback)
    requires |s.log| <= at < |s.log| + |s.callbacks| == |Step(s, Notify(replies)).log|
    requires DeadReport(Step(s, Notify(replies)).log[at], c) && Accounted(s, c)
    requires Standing(Step(s, Notify(replies)).log[..at], c) > 1
    ensures || !Silenced(Step(s, Notify(replies)).log, at, c)
            || !Silenced(Step(Step(s, Notify(replies)), Notify(_ => Fine)).log, at, c)
  {
    var t := Step(s, Notify(replies));
    NotifyLog(s, replies);
    DeadOnceOfMany(t.log, at, c);
    StepAccounts(s, Notify(replies), c);
    if c in t.callbacks {
      KeptIsCalled(t, at, c);
    }
  }

  /** A callback standing once is silenced, in every continuation. */
  lemma SilencedAfter(ops: seq<Op>, more: seq<Op>, at: nat, c: Callback)
    requires at < |Run(ops).log| && DeadReport(Run(ops).log[at], c) && Standing(Run(ops).log[..at], c) == 1
    ensures Silenced(Run(ops + more).log, at, c)
  {
    var log := Run(ops + more).log;
    LogGrows(ops, more);
    assert log[..at] == Run(ops).log[..at];
    forall j | at < j < |log| && log[j].Delivered? && log[j].c == c
      ensures exists k | at < k < j :: log[k] == Registered(c)
    {
      DeadOnceNeedsRegistration(ops + more, at, j);
    }
  }

  lemma CallsAgain(ops: seq<Op>, replies: nat -> Reply, at: nat, c: Callback) returns (more: seq<Op>)
    requires |Run(ops).log| <= at < |Run(ops + [Notify(replies)]).log|
    requires DeadReport(Run(ops + [Notify(replies)]).log[at], c)
    requires Standing(Run(ops + [Notify(replies)]).log[..at], c) > 1
    ensures !Silenced(Run(ops + [Notify(replies)] + more).log, at, c)
  {
    var s, one := Run(ops), ops + [Notify(replies)];
    RunSnoc(ops, Notify(replies));
    RunSnoc(one, Notify(_ => Fine));
    NotifyLog(s, replies);
    RegistryAccounts(ops, c);
    StillCalled(s, replies, at, c);
    if Silenced(Run(one).log, at, c) {
      more := [Notify(_ => Fine)];
    } else {
      more := [];
      assert one + [] == one;
    }
  }

  /** A dead report silences a callback, whatever the registry does next, if and only if the
      callback was standing exactly once when it was called. */
  lemma SilencedIff(ops: seq<Op>, replies: nat -> Reply, at: nat, c: Callback)
    requires |Run(ops).log| <= at < |Run(ops + [Notify(replies)]).log|
    requires DeadReport(Run(ops + [Notify(replies)]).log[at], c)
    ensures (forall more :: Silenced(Run(ops + [Notify(replies)] + more).log, at, c))
            <==> Standing(Run(ops + [Notify(replies)]).log[..at], c) == 1
  {
    var one := ops + [Notify(replies)];
    var log := Run(one).log;
    RunServesStanding(one);
    assert Standing(log[..at], c) > 0;
    if Standing(log[..at], c) == 1 {
      forall more ensures Silenced(Run(one + more).log, at, c) {
        SilencedAfter(one, more, at, c);
      }
    } else {
      var more := CallsAgain(ops, replies, at, c);
    }
  }

  /** Registered twice and answering DeadObject to everything, a callback is called again right
      after its first dead report. */
  lemma DeadButCalled()
    ensures Run([Register(Some(7)), Register(Some(7)), Notify(_ => DeadObject)]).log
            == [Registered(7), Registered(7), Delivered(7, DeadObject), Delivered(7, DeadObject)]
  {
    var a, b := [Register(Some(7))], [Register(Some(7)), Register(Some(7))];
    var s := Run(b);
    assert b[..1] == a && a[..0] == [];
    assert s == State([7, 7], [Registered(7), Registered(7)]);
    var r := RepliesTo(s.callbacks, _ => DeadObject);
    assert Deliveries(s.callbacks, r, 1) == Deliveries(s.callbacks, r, 0) + [Delivered(7, DeadObject)];
    var ops := b + [Notify(_ => DeadObject)];
    assert ops[..2] == b;
    assert ops == [Register(Some(7)), Register(Some(7)), Notify(_ => DeadObject)];
  }

  // ---------- the order of calls ----------

  /** Every entry of `a` comes before every entry of `b`. */
  predicate Before(s: seq<Callback>, a: Callback, b: Callback) {
    forall i, j | 0 <= i < |s| && 0 <= j < |s| :: s[i] == a && s[j] == b ==> i < j
  }

  lemma BeforePush(s: seq<Callback>, x: Callback, a: Callback, b: Callback)
    requires a != b
    ensures Before(s + [x], a, b) <==> Before(s, a, b) && (x == a ==> b !in s)
  {
    var t := s + [x];
    assert forall i | 0 <= i < |s| :: t[i] == s[i];
    assert t[|s|] == x;
  }

  lemma {:induction false} WithoutKeepsOrder(s: seq<Callback>, c: Callback, k: nat, a: Callback, b: Callback)
    requires a != b && k <= |s| && Before(s[..k], a, b)
    ensures Before(Without(s, c, k), a, b)
    ensures b in Without(s, c, k) ==> b in s[..k]
  {
    if k > 0 {
      assert s[..k] == s[..k - 1] + [s[k - 1]];
      BeforePush(s[..k - 1], s[k - 1], a, b);
      WithoutKeepsOrder(s, c, k - 1, a, b);
      BeforePush(Without(s, c, k - 1), s[k - 1], a, b);
    }
  }

  lemma {:induction false} SurvivorsKeepOrder(s: seq<Callback>, replies: seq<Reply>, k: nat, a: Callback, b: Callback)
    requires a != b && k <= |s| <= |replies| && Before(s[..k], a, b)
    ensures Before(Survivors(s, replies, k), a, b)
    ensures b in Survivors(s, replies, k) ==> b in s[..k]
  {
    if k > 0 {
      assert s[..k] == s[..k - 1] + [s[k - 1]];
      BeforePush(s[..k - 1], s[k - 1], a, b);
      SurvivorsKeepOrder(s, replies, k - 1, a, b);
      BeforePush(Survivors(s, replies, k - 1), s[k - 1], a, b);
    }
  }

  lemma StepKeepsOrder(s: State, op: Op, a: Callback, b: Callback)
    requires a != b && Before(s.callbacks, a, b) && op != Register(Some(a))
    ensures Before(Step(s, op).callbacks, a, b)
  {
    assert s.callbacks[..|s.callbacks|] == s.callbacks;
    match op
    case Register(x) =>
      if x.Some? {
        BeforePush(s.callbacks, x.value, a, b);
      }
    case Remove(x) =>
      if x.Some? {
        WithoutKeepsOrder(s.callbacks, x.value, |s.callbacks|, a, b);
      }
    case Notify(replies) =>
      SurvivorsKeepOrder(s.callbacks, RepliesTo(s.callbacks, replies), |s.callbacks|, a, b);
  }

  /** Callbacks are held in the order of their registration: when `b`, not held before, registers,
      all entries of any other callback `a` precede it, as long as `a` does not register again. */
  lemma {:induction false} OrderKept(ops: seq<Op>, more: seq<Op>, a: Callback, b: Callback)
    requires a != b && b !in Run(ops).callbacks
    requires forall i | 0 <= i < |more| :: more[i] != Register(Some(a))
    ensures Before(Run(ops + [Register(Some(b))] + more).callbacks, a, b)
  {
    var start := ops + [Register(Some(b))];
    if more == [] {
      assert start + more == start;
      RunSnoc(ops, Register(Some(b)));
      BeforePush(Run(ops).callbacks, b, a, b);
    } else {
      var init, last := more[..|more| - 1], more[|more| - 1];
      OrderKept(ops, init, a, b);
      assert start + more == start + init + [last];
      RunSnoc(start + init, last);
      StepKeepsOrder(Run(start + init), last, a, b);
    }
  }

  /** Whoever registers `b`, new to the registry, finds every other callback `a` called before it
      in each notify step, until `a` registers again. */
  lemma CalledInOrder(ops: seq<Op>, more: seq<Op>, replies: nat -> Reply, a: Callback, b: Callback, i: nat, j: nat)
    requires a != b && b !in Run(ops).callbacks
    requires forall k | 0 <= k < |more| :: more[k] != Register(Some(a))
    requires var before, after := Run(ops + [Register(Some(b))] + more).log,
                                  Run(ops + [Register(Some(b))] + more + [Notify(replies)]).log;
             && |before| <= i < |after| && |before| <= j < |after|
             && after[i].c == a && after[j].c == b
    ensures i < j
  {
    var all := ops + [Register(Some(b))] + more;
    OrderKept(ops, more, a, b);
    RunSnoc(all, Notify(replies));
    NotifyLog(Run(all), replies);
  }
}
