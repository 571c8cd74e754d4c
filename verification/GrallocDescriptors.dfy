/** The life of a gralloc1 descriptor: fully configured before it is used, destroyed exactly
    once, and alive between requests only if the device refused to destroy it. */
module GrallocDescriptors {
  import opened Options
  import opened GrallocTypes
  import opened GrallocLedger
  import opened GrallocBatch

  function Repeat(u: Option<Config>, n: nat): (r: seq<Option<Config>>)
    ensures |r| == n && forall i | 0 <= i < n :: r[i] == u
  {
    seq(n, _ => u)
  }

  // ---------- buffers do not touch descriptors ----------

  lemma AttemptLife(o: Oracle, b: Backend, t: Log, k: Key)
    ensures LifeOf(AttemptOne(o, b, t).log, k) == LifeOf(t, k)
  {
    if b.Described? {
      var a := o.answers(t);
      var given := Then(t, b.device, Allocate(b.descriptor, a.error, a.buffer));
      assert LifeOf(given, k) == LifeOf(t, k);
      var g := o.answers(given);
      assert LifeOf(Then(given, b.device, GetStride(a.buffer, g.error, g.stride)), k) == LifeOf(t, k);
    }
  }

  /** The NOT_SHARED setups are the same, and `n` more allocations were made, all on a
      descriptor configured as `u`. */
  predicate Used(before: Log, after: Log, u: Option<Config>, n: nat) {
    && Uses(after) == Uses(before) + Repeat(u, n)
    && FoldedSetups(after) == FoldedSetups(before)
  }

  lemma AttemptUses(o: Oracle, v: DeviceId, d: Descriptor, t: Log)
    ensures Used(t, AttemptDescribed(o, v, d, t).log, LifeOf(t, Key(v, d)).config, 1)
  {
    var a := o.answers(t);
    var given := Then(t, v, Allocate(d, a.error, a.buffer));
    assert Used(t, given, LifeOf(t, Key(v, d)).config, 1);
  }

  lemma {:induction false} AttemptsLife(o: Oracle, b: Backend, t: Log, made: seq<Attempt>, count: nat, k: Key)
    requires |made| <= count && PrefixesAcceptable(made)
    ensures LifeOf(Attempts(o, b, t, made, count).log, k) == LifeOf(t, k)
    decreases count - |made|
  {
    if |made| < count && Acceptable(made) {
      var r := AttemptOne(o, b, t);
      ExtendPrefixes(made, r.attempt);
      AttemptLife(o, b, t, k);
      AttemptsLife(o, b, r.log, made + [r.attempt], count, k);
    }
  }

  lemma {:induction false} AttemptsUse(o: Oracle, v: DeviceId, d: Descriptor, t: Log, made: seq<Attempt>, count: nat)
    requires |made| <= count && PrefixesAcceptable(made)
    ensures var r := Attempts(o, Described(v, d), t, made, count);
            Used(t, r.log, LifeOf(t, Key(v, d)).config, |r.made| - |made|)
    decreases count - |made|
  {
    if |made| < count && Acceptable(made) {
      var r := AttemptOne(o, Described(v, d), t);
      ExtendPrefixes(made, r.attempt);
      AttemptUses(o, v, d, t);
      AttemptLife(o, Described(v, d), t, Key(v, d));
      AttemptsUse(o, v, d, r.log, made + [r.attempt], count);
    }
  }

  lemma {:induction false} DirectAttemptsUse(o: Oracle, v: DeviceId, info: Info, t: Log, made: seq<Attempt>, count: nat)
    requires |made| <= count && PrefixesAcceptable(made)
    ensures var r := Attempts(o, Direct(v, info), t, made, count).log;
            Uses(r) == Uses(t) && FoldedSetups(r) == FoldedSetups(t)
    decreases count - |made|
  {
    if |made| < count && Acceptable(made) {
      var r := AttemptOne(o, Direct(v, info), t);
      ExtendPrefixes(made, r.attempt);
      DirectAttemptsUse(o, v, info, r.log, made + [r.attempt], count);
    }
  }

  lemma {:induction false} FreeBuffersLife(o: Oracle, hal: Hal, t: Log, buffers: seq<Handle>, k: Key)
    ensures var r := FreeBuffers(o, hal, t, buffers);
            LifeOf(r, k) == LifeOf(t, k) && Uses(r) == Uses(t) && FoldedSetups(r) == FoldedSetups(t)
    decreases |buffers|
  {
    if buffers != [] {
      FreeBuffersLife(o, hal, GiveBack(o, hal, t, buffers[0]), buffers[1..], k);
    }
  }

  // ---------- setup ----------

  function SettingSet(settings: seq<Setting>): set<Setting> { set s | s in settings }

  /** Setting up a live descriptor touches no other; when every setter succeeds it ends up
      with exactly the requested settings added. */
  lemma {:induction false} ConfigureLife(o: Oracle, v: DeviceId, t: Log, d: Descriptor, settings: seq<Setting>,
                                         conclusion: DeviceError, k: Key)
    ensures var r := Configure(o, v, t, d, settings, conclusion);
            && LifeOf(r.log, k).(config := None) == LifeOf(t, k).(config := None)
            && (k != Key(v, d) || LifeOf(t, k).config.None? ==> LifeOf(r.log, k) == LifeOf(t, k))
            && (k == Key(v, d) && LifeOf(t, k).config.Some? && r.error.Success? ==>
                  LifeOf(r.log, k).config
                  == Some(LifeOf(t, k).config.value.(
                            settings := LifeOf(t, k).config.value.settings + SettingSet(settings))))
    decreases |settings|
  {
    if settings == [] {
      assert SettingSet(settings) == {};
      if LifeOf(t, k).config.Some? {
        assert LifeOf(t, k).config.value.settings + {} == LifeOf(t, k).config.value.settings;
      }
    } else {
      var e := Set(d, settings[0], o.answers(t).error);
      if e.error.Success? {
        ConfigureLife(o, v, Then(t, v, e), d, settings[1..], conclusion, k);
        assert SettingSet(settings) == {settings[0]} + SettingSet(settings[1..]) by {
          assert settings == [settings[0]] + settings[1..];
        }
        if LifeOf(t, k).config.Some? {
          var had := LifeOf(t, k).config.value.settings;
          assert had + SettingSet(settings) == had + {settings[0]} + SettingSet(settings[1..]);
        }
      }
    }
  }

  /** Setup makes no allocations, and a NOT_SHARED answer shows in its result. */
  lemma {:induction false} ConfigureFolds(o: Oracle, v: DeviceId, t: Log, d: Descriptor, settings: seq<Setting>,
                                          conclusion: DeviceError)
    requires !conclusion.NotShared?
    ensures var r := Configure(o, v, t, d, settings, conclusion);
            && Uses(r.log) == Uses(t)
            && FoldedSetups(r.log) == FoldedSetups(t) + (if r.error.NotShared? then 1 else 0)
    decreases |settings|
  {
    if settings != [] && o.answers(t).error.Success? {
      ConfigureFolds(o, v, Then(t, v, Set(d, settings[0], o.answers(t).error)), d, settings[1..], conclusion);
    }
  }

  /** The settings a request wants its descriptor to have, before any destroy call. */
  function FullConfig(hal: Hal, info: Info): Config
    requires hal.Gralloc1?
  {
    Config(SettingSet(Settings(hal, info)), false)
  }

  /** The descriptor variable after the creation call of a request, whether or not it was
      written. */
  function Target(o: Oracle, hal: Hal, t: Log): Key { Key(hal.device, o.answers(t).descriptor) }

  /** When createDescriptor assigns a descriptor, it is live with exactly the settings of the
      request, and no other descriptor changed. */
  lemma CreateAssigns(o: Oracle, hal: Hal, t: Log, info: Info, k: Key)
    requires hal.Gralloc1? && CreateDescriptor(o, hal, t, info).written.Some?
    ensures var s := CreateDescriptor(o, hal, t, info);
            && s.error.NONE? && s.written == Some(Target(o, hal, t).id)
            && LifeOf(s.log, k)
               == if k == Target(o, hal, t)
                  then LifeOf(t, k).(config := Some(FullConfig(hal, info)), created := LifeOf(t, k).created + 1)
                  else LifeOf(t, k)
  {
    var a := o.answers(t);
    var created := Then(t, hal.device, Create(a.error, a.descriptor));
    ConfigureLife(o, hal.device, created, a.descriptor, Settings(hal, info), Conclusion(hal, info), k);
    assert {} + SettingSet(Settings(hal, info)) == SettingSet(Settings(hal, info));
  }

  /** The descriptor is not live, or a destroy call has been made on it since its creation. */
  predicate Abandoned(config: Option<Config>) { config.Some? ==> config.value.doomed }

  /** When createDescriptor assigns nothing, it has made one destroy call on what its variable
      held, the descriptor it created or, if creation failed, whatever was there; and no other
      descriptor changed. */
  lemma CreateAbandons(o: Oracle, hal: Hal, t: Log, info: Info, k: Key)
    requires hal.Gralloc1? && CreateDescriptor(o, hal, t, info).written.None?
    ensures var s := CreateDescriptor(o, hal, t, info);
            var before, after := LifeOf(t, k), LifeOf(s.log, k);
            if k == Target(o, hal, t) then
              && after.created == before.created + (if o.answers(t).error.Success? then 1 else 0)
              && after.destroyed == before.destroyed + 1
              && Abandoned(after.config)
            else after == before
  {
    var a := o.answers(t);
    var created := Then(t, hal.device, Create(a.error, a.descriptor));
    if a.error.Success? {
      ConfigureLife(o, hal.device, created, a.descriptor, Settings(hal, info), Conclusion(hal, info), k);
    }
  }

  /** The out-descriptor is assigned by a NONE exactly when no creation or setter call was
      answered NOT_SHARED; otherwise the descriptor has already been destroyed. */
  lemma NoneMeansAssigned(o: Oracle, hal: Hal, t: Log, info: Info)
    requires hal.Gralloc1?
    ensures var s := CreateDescriptor(o, hal, t, info);
            && Uses(s.log) == Uses(t)
            && FoldedSetups(s.log) == FoldedSetups(t) + (if s.error.NONE? && s.written.None? then 1 else 0)
            && (s.written.None? ==>
                  s.log.Then? && s.log.event.Destroy? && s.log.event.descriptor == o.answers(t).descriptor)
  {
    var a := o.answers(t);
    ConfigureFolds(o, hal.device, Then(t, hal.device, Create(a.error, a.descriptor)), a.descriptor,
                   Settings(hal, info), Conclusion(hal, info));
  }

  /** Helper: when the device cannot create a descriptor, exactly when that ends the life of one
      that is live: the unset variable holds it, and the device accepts the destroy call. */
  lemma FailedCreateHitsIff(o: Oracle, hal: Hal, t: Log, info: Info, k: Key)
    requires hal.Gralloc1? && !o.answers(t).error.Success? && LifeOf(t, k).config.Some?
    ensures LifeOf(CreateDescriptor(o, hal, t, info).log, k).config.None?
            <==> && k == Target(o, hal, t)
                 && o.answers(Then(t, hal.device, Create(o.answers(t).error, k.id))).error.Success?
  {}

  // ---------- the whole request ----------

  /** The batch of a prepared request after its attempts: one destroy call, then give-backs. */
  lemma BatchAfterPrepare(o: Oracle, hal: Hal, t: Log, info: Info, count: nat, k: Key)
    requires hal.Gralloc1? && Prepare(o, hal, t, info).error.NONE?
    ensures var r, b := AllocateBuffers(o, hal, t, Some(info), count), BatchProgress(o, hal, t, info, count);
            var x := Prepare(o, hal, t, info).backend.descriptor;
            var finished := Then(b.log, hal.device, Destroy(x, o.answers(b.log).error));
            && LifeOf(r.log, k) == LifeOf(finished, k) && Uses(r.log) == Uses(b.log)
            && FoldedSetups(r.log) == FoldedSetups(b.log)
  {
    var p, b := Prepare(o, hal, t, info), BatchProgress(o, hal, t, info, count);
    var finished := Then(b.log, hal.device, Destroy(p.backend.descriptor, o.answers(b.log).error));
    assert Finish(o, p.backend, b.log) == finished;
    assert Uses(finished) == Uses(b.log) + [];
    FreeBuffersLife(o, hal, finished, Handles(b.made), k);
  }

  /** The reply and the clean-up of a request do not touch descriptors. */
  lemma ReplyLife(o: Oracle, hal: Hal, t: Log, decoded: Option<Info>, count: nat, k: Key)
    ensures var r, a := Serve(o, hal, t, decoded, count), AllocateBuffers(o, hal, t, decoded, count).log;
            LifeOf(r, k) == LifeOf(a, k) && Uses(r) == Uses(a) && FoldedSetups(r) == FoldedSetups(a)
  {
    var a := AllocateBuffers(o, hal, t, decoded, count);
    var replied := Then(a.log, hal.device, ReplyOf(a));
    assert LifeOf(replied, k) == LifeOf(a.log, k) && Uses(replied) == Uses(a.log) + [];
    FreeBuffersLife(o, hal, replied, ReplyOf(a).handles, k);
  }

  /** The attempts leave the descriptors as they are, then the one used is destroyed once. */
  lemma LifeAfterPrepare(o: Oracle, hal: Hal, t: Log, info: Info, count: nat, k: Key)
    requires hal.Gralloc1? && Prepare(o, hal, t, info).error.NONE?
    ensures var p, r := Prepare(o, hal, t, info), Serve(o, hal, t, Some(info), count);
            var b, x := BatchProgress(o, hal, t, info, count), Key(hal.device, p.backend.descriptor);
            LifeOf(r, k)
            == if k == x then LifeStep(LifeOf(p.log, k), Destroy(x.id, o.answers(b.log).error), x.id)
               else LifeOf(p.log, k)
  {
    var p := Prepare(o, hal, t, info);
    AttemptsLife(o, p.backend, p.log, [], count, k);
    BatchAfterPrepare(o, hal, t, info, count, k);
    ReplyLife(o, hal, t, Some(info), count, k);
  }

  /** The attempts use the descriptor as the preparation left it. */
  lemma UsesAfterPrepare(o: Oracle, hal: Hal, t: Log, info: Info, count: nat)
    requires hal.Gralloc1? && Prepare(o, hal, t, info).error.NONE?
    ensures var p := Prepare(o, hal, t, info);
            Used(p.log, Serve(o, hal, t, Some(info), count),
                 LifeOf(p.log, Key(hal.device, p.backend.descriptor)).config,
                 |BatchProgress(o, hal, t, info, count).made|)
  {
    var p, b := Prepare(o, hal, t, info), BatchProgress(o, hal, t, info, count);
    var c := LifeOf(p.log, Key(hal.device, p.backend.descriptor)).config;
    assert Used(p.log, b.log, c, |b.made|) by {
      AttemptsUse(o, hal.device, p.backend.descriptor, p.log, [], count);
    }
    BatchAfterPrepare(o, hal, t, info, count, Key(0, 0));
    ReplyLife(o, hal, t, Some(info), count, Key(0, 0));
  }

  /** A request whose preparation failed ends there. */
  lemma ServeUnprepared(o: Oracle, hal: Hal, t: Log, info: Info, count: nat, k: Key)
    requires hal.Gralloc1? && !Prepare(o, hal, t, info).error.NONE?
    ensures var s, r := CreateDescriptor(o, hal, t, info), Serve(o, hal, t, Some(info), count);
            && s.written.None? && BatchProgress(o, hal, t, info, count).made == []
            && LifeOf(r, k) == LifeOf(s.log, k) && Uses(r) == Uses(s.log) && FoldedSetups(r) == FoldedSetups(s.log)
  {
    var s := CreateDescriptor(o, hal, t, info);
    assert Serve(o, hal, t, Some(info), count) == Then(s.log, hal.device, Reply(s.error, 0, []));
  }

  /** gralloc0 requests, and requests that do not decode, involve no descriptors. */
  lemma ServeDirectLife(o: Oracle, hal: Hal, t: Log, decoded: Option<Info>, count: nat, k: Key)
    requires hal.Gralloc0? || decoded.None?
    ensures var r := Serve(o, hal, t, decoded, count);
            LifeOf(r, k) == LifeOf(t, k) && Uses(r) == Uses(t) && FoldedSetups(r) == FoldedSetups(t)
  {
    ReplyLife(o, hal, t, decoded, count, k);
    if decoded.Some? {
      var r := BatchProgress(o, hal, t, decoded.value, count);
      AttemptsLife(o, Direct(hal.device, decoded.value), t, [], count, k);
      DirectAttemptsUse(o, hal.device, decoded.value, t, [], count);
      FreeBuffersLife(o, hal, r.log, Handles(r.made), k);
    }
  }

  // ---------- nothing left alive ----------

  /** Between requests a descriptor is live only if the device refused a destroy call made on
      it since it was created, for every device and whatever the unset variables hold. */
  lemma ServeLeavesNoDescriptor(o: Oracle, hal: Hal, t: Log, decoded: Option<Info>, count: nat, k: Key)
    requires Abandoned(LifeOf(t, k).config)
    ensures Abandoned(LifeOf(Serve(o, hal, t, decoded, count), k).config)
  {
    if decoded.Some? && hal.Gralloc1? {
      var info := decoded.value;
      if CreateDescriptor(o, hal, t, info).written.Some? {
        CreateAssigns(o, hal, t, info, k);
      } else {
        CreateAbandons(o, hal, t, info, k);
      }
      if Prepare(o, hal, t, info).error.NONE? {
        LifeAfterPrepare(o, hal, t, info, count, k);
      } else {
        ServeUnprepared(o, hal, t, info, count, k);
      }
    } else {
      ServeDirectLife(o, hal, t, decoded, count, k);
    }
  }

  // ---------- configured when used ----------

  lemma FoldsDuringSetup(o: Oracle, hal: Hal, t: Log, decoded: Option<Info>, count: nat)
    ensures var r := Serve(o, hal, t, decoded, count);
            FoldedSetups(r) - FoldedSetups(t)
            == if hal.Gralloc1? && decoded.Some?
                  && CreateDescriptor(o, hal, t, decoded.value).error.NONE?
                  && CreateDescriptor(o, hal, t, decoded.value).written.None? then 1 else 0
  {
    if hal.Gralloc0? || decoded.None? {
      ServeDirectLife(o, hal, t, decoded, count, Key(0, 0));
    } else {
      NoneMeansAssigned(o, hal, t, decoded.value);
      if Prepare(o, hal, t, decoded.value).error.NONE? {
        UsesAfterPrepare(o, hal, t, decoded.value, count);
      } else {
        ServeUnprepared(o, hal, t, decoded.value, count, Key(0, 0));
      }
    }
  }

  /** The configurations that the allocations of a request should find: none for requests
      without a descriptor, and the full one of the request for each attempt otherwise. */
  function Wanted(o: Oracle, hal: Hal, t: Log, decoded: Option<Info>, count: nat): seq<Option<Config>> {
    if hal.Gralloc0? || decoded.None? then []
    else Repeat(Some(FullConfig(hal, decoded.value)), |BatchProgress(o, hal, t, decoded.value, count).made|)
  }

  /** No setup call of the request was answered NOT_SHARED, or it made no allocation. */
  predicate SetupHeeded(o: Oracle, hal: Hal, t: Log, decoded: Option<Info>, count: nat) {
    || FoldedSetups(Serve(o, hal, t, decoded, count)) == FoldedSetups(t)
    || Wanted(o, hal, t, decoded, count) == []
  }

  /** What the allocations of a request find instead: the configuration of one descriptor. */
  lemma ServeUses(o: Oracle, hal: Hal, t: Log, decoded: Option<Info>, count: nat) returns (u: Option<Config>)
    requires forall k :: Abandoned(LifeOf(t, k).config)
    ensures Uses(Serve(o, hal, t, decoded, count)) == Uses(t) + Repeat(u, |Wanted(o, hal, t, decoded, count)|)
    ensures hal.Gralloc1? && decoded.Some? ==>
              if FoldedSetups(Serve(o, hal, t, decoded, count)) == FoldedSetups(t)
              then u == Some(FullConfig(hal, decoded.value)) else Abandoned(u)
  {
    u := None;
    FoldsDuringSetup(o, hal, t, decoded, count);
    if hal.Gralloc0? || decoded.None? {
      ServeDirectLife(o, hal, t, decoded, count, Key(0, 0));
    } else {
      var info := decoded.value;
      var p := Prepare(o, hal, t, info);
      NoneMeansAssigned(o, hal, t, info);
      if p.error.NONE? {
        var x := Key(hal.device, p.backend.descriptor);
        UsesAfterPrepare(o, hal, t, info, count);
        u := LifeOf(p.log, x).config;
        if CreateDescriptor(o, hal, t, info).written.Some? {
          CreateAssigns(o, hal, t, info, x);
        } else {
          CreateAbandons(o, hal, t, info, x);
          assert Abandoned(LifeOf(t, x).config);
        }
      } else {
        ServeUnprepared(o, hal, t, info, count, Key(0, 0));
        u := Some(FullConfig(hal, info));
      }
    }
  }

  /** Every allocation of a request is made on a live descriptor that has exactly the settings
      of the request and has not been through a destroy call, if and only if no setup call was
      answered NOT_SHARED or no allocation was made. */
  lemma ServeTypestate(o: Oracle, hal: Hal, t: Log, decoded: Option<Info>, count: nat)
    requires forall k :: Abandoned(LifeOf(t, k).config)
    ensures |Uses(Serve(o, hal, t, decoded, count))| == |Uses(t)| + |Wanted(o, hal, t, decoded, count)|
    ensures Uses(Serve(o, hal, t, decoded, count)) == Uses(t) + Wanted(o, hal, t, decoded, count)
            <==> SetupHeeded(o, hal, t, decoded, count)
  {
    var u := ServeUses(o, hal, t, decoded, count);
    var wanted := Wanted(o, hal, t, decoded, count);
    if wanted != [] {
      assert (Uses(t) + Repeat(u, |wanted|))[|Uses(t)|] == u;
      assert (Uses(t) + wanted)[|Uses(t)|] == Some(FullConfig(hal, decoded.value));
      if u == Some(FullConfig(hal, decoded.value)) {
        assert Repeat(u, |wanted|) == wanted;
      }
    }
  }

  // ---------- destroyed exactly once ----------

  /** Destroy calls on `k` beyond the successful creations of `k`. */
  function Excess(log: Log, k: Key): int { LifeOf(log, k).destroyed - LifeOf(log, k).created }

  /** What each request adds to the excess: nothing if it created a descriptor and no setup call
      was answered NOT_SHARED; otherwise one for each destroy call on an unset variable. */
  lemma ServeExcess(o: Oracle, hal: Hal, t: Log, info: Info, count: nat, k: Key)
    requires hal.Gralloc1?
    ensures var r, s := Serve(o, hal, t, Some(info), count), CreateDescriptor(o, hal, t, info);
            var junk := Key(hal.device, Prepare(o, hal, t, info).backend.descriptor);
            Excess(r, k) - Excess(t, k)
            == (if !o.answers(t).error.Success? && k == Target(o, hal, t) then 1 else 0)
               + (if s.error.NONE? && s.written.None? && k == junk then 1 else 0)
  {
    if CreateDescriptor(o, hal, t, info).written.Some? {
      CreateAssigns(o, hal, t, info, k);
    } else {
      CreateAbandons(o, hal, t, info, k);
    }
    if Prepare(o, hal, t, info).error.NONE? {
      LifeAfterPrepare(o, hal, t, info, count, k);
    } else {
      ServeUnprepared(o, hal, t, info, count, k);
    }
  }

  /** The device created the descriptor of the request, if it needs one, and no creation or
      setter call was answered NOT_SHARED. */
  predicate CleanSetup(o: Oracle, hal: Hal, t: Log, decoded: Option<Info>, count: nat) {
    hal.Gralloc1? && decoded.Some? ==>
      o.answers(t).error.Success? && FoldedSetups(Serve(o, hal, t, decoded, count)) == FoldedSetups(t)
  }

  lemma ServeExcessGrows(o: Oracle, hal: Hal, t: Log, decoded: Option<Info>, count: nat, k: Key)
    ensures var r := Serve(o, hal, t, decoded, count);
            && Excess(t, k) <= Excess(r, k)
            && (CleanSetup(o, hal, t, decoded, count) ==> Excess(t, k) == Excess(r, k))
  {
    if hal.Gralloc1? && decoded.Some? {
      ServeExcess(o, hal, t, decoded.value, count, k);
      FoldsDuringSetup(o, hal, t, decoded, count);
    } else {
      ServeDirectLife(o, hal, t, decoded, count, k);
    }
  }

  lemma ServeExcessWitness(o: Oracle, hal: Hal, t: Log, decoded: Option<Info>, count: nat) returns (k: Key)
    requires !CleanSetup(o, hal, t, decoded, count)
    ensures Excess(t, k) < Excess(Serve(o, hal, t, decoded, count), k)
  {
    FoldsDuringSetup(o, hal, t, decoded, count);
    k := if !o.answers(t).error.Success? then Target(o, hal, t)
         else Key(hal.device, Prepare(o, hal, t, decoded.value).backend.descriptor);
    ServeExcess(o, hal, t, decoded.value, count, k);
  }

  /** A request destroys exactly the descriptors it created, once each, if and only if the
      device created one and no creation or setter call was answered NOT_SHARED. */
  lemma ServeDestroysOnce(o: Oracle, hal: Hal, t: Log, decoded: Option<Info>, count: nat)
    ensures (forall k :: Excess(Serve(o, hal, t, decoded, count), k) == Excess(t, k))
            <==> CleanSetup(o, hal, t, decoded, count)
  {
    if CleanSetup(o, hal, t, decoded, count) {
      forall k ensures Excess(Serve(o, hal, t, decoded, count), k) == Excess(t, k) {
        ServeExcessGrows(o, hal, t, decoded, count, k);
      }
    } else {
      var k := ServeExcessWitness(o, hal, t, decoded, count);
    }
  }
}
