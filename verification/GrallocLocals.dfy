/** What the unset locals of the allocator can do: the handle variable of a getStride answer
    NOT_SHARED is the only one that reaches the device or the client as a buffer, and any such
    answer lets it. */
module GrallocLocals {
  import opened Options
  import opened GrallocTypes
  import opened GrallocLedger
  import opened GrallocBatch
  import opened GrallocBuffers
  import opened GrallocSafety
  import opened UsageFlags
  import opened GrallocSystem

  /** The same device, with `x` in every handle variable that is read unset. */
  function WithJunk(o: Oracle, x: Handle): Oracle {
    Oracle(o.answers, (t: Log) => o.locals(t).(buffer := x))
  }

  /** A handle larger than any that a device has returned. */
  function Unused(log: Log): Handle {
    if log.Start? then 1
    else if (log.event.Allocate? || log.event.Alloc?) && log.event.buffer >= Unused(log.past) then log.event.buffer + 1
    else Unused(log.past)
  }

  lemma {:induction false} UnusedNeverObtained(log: Log, k: Key)
    requires k.id >= Unused(log)
    ensures BufferTally(log, k).obtained == 0
  {
    if log.Then? {
      UnusedNeverObtained(log.past, k);
    }
  }

  // ---------- what does not depend on the handle variable ----------

  function Junked(a: Attempt, x: Handle): Attempt { if a.Unassigned? then Unassigned(x, a.stride) else a }

  /** The same attempts, had the variable held `x`. */
  function AllJunked(made: seq<Attempt>, x: Handle): (r: seq<Attempt>)
    ensures |r| == |made| && forall i | 0 <= i < |made| :: r[i] == Junked(made[i], x)
  {
    seq(|made|, i requires 0 <= i < |made| => Junked(made[i], x))
  }

  lemma SameVerdict(made: seq<Attempt>, x: Handle)
    ensures Acceptable(AllJunked(made, x)) <==> Acceptable(made)
    ensures Verdict(AllJunked(made, x)) == Verdict(made) && LastStride(AllJunked(made, x)) == LastStride(made)
  {
    assert forall i | 0 <= i < |made| :: StrideOf(AllJunked(made, x)[i]) == StrideOf(made[i]);
    assert forall i | 0 <= i < |made| :: AllJunked(made, x)[i].Failed? == made[i].Failed?;
    assert forall i | 0 <= i < |made| :: made[i].Failed? ==> AllJunked(made, x)[i] == made[i];
  }

  lemma SamePrefixes(made: seq<Attempt>, x: Handle)
    requires PrefixesAcceptable(made)
    ensures PrefixesAcceptable(AllJunked(made, x))
  {
    forall k | 0 <= k < |made| ensures Acceptable(AllJunked(made, x)[..k]) {
      SameVerdict(made[..k], x);
      assert AllJunked(made, x)[..k] == AllJunked(made[..k], x);
    }
  }

  /** The loop makes the same calls and comes out the same, but for the handles it holds. */
  lemma {:induction false} SameAttempts(o: Oracle, b: Backend, t: Log, made: seq<Attempt>, count: nat, x: Handle)
    requires |made| <= count && PrefixesAcceptable(made)
    ensures PrefixesAcceptable(AllJunked(made, x))
    ensures var r := Attempts(o, b, t, made, count);
            Attempts(WithJunk(o, x), b, t, AllJunked(made, x), count) == Progress(AllJunked(r.made, x), r.log)
    decreases count - |made|
  {
    SamePrefixes(made, x);
    SameVerdict(made, x);
    if |made| < count && Acceptable(made) {
      var r := AttemptOne(o, b, t);
      ExtendPrefixes(made, r.attempt);
      assert AttemptOne(WithJunk(o, x), b, t) == AttemptResult(Junked(r.attempt, x), r.log);
      assert AllJunked(made + [r.attempt], x) == AllJunked(made, x) + [Junked(r.attempt, x)];
      SameAttempts(o, b, r.log, made + [r.attempt], count, x);
    }
  }

  lemma {:induction false} SameConfigure(o: Oracle, v: DeviceId, t: Log, d: Descriptor, settings: seq<Setting>,
                                         conclusion: DeviceError, x: Handle)
    ensures Configure(WithJunk(o, x), v, t, d, settings, conclusion) == Configure(o, v, t, d, settings, conclusion)
    decreases |settings|
  {
    if settings != [] {
      var error := o.answers(t).error;
      SameConfigure(o, v, Then(t, v, Set(d, settings[0], error)), d, settings[1..], conclusion, x);
    }
  }

  lemma SamePrepare(o: Oracle, hal: Hal, t: Log, info: Info, x: Handle)
    ensures Prepare(WithJunk(o, x), hal, t, info) == Prepare(o, hal, t, info)
  {
    if hal.Gralloc1? {
      var a := o.answers(t);
      var created := Then(t, hal.device, Create(a.error, a.descriptor));
      SameConfigure(o, hal.device, created, a.descriptor, Settings(hal, info), Conclusion(hal, info), x);
    }
  }

  lemma {:induction false} SameFreeBuffers(o: Oracle, hal: Hal, t: Log, buffers: seq<Handle>, x: Handle)
    ensures FreeBuffers(WithJunk(o, x), hal, t, buffers) == FreeBuffers(o, hal, t, buffers)
    decreases |buffers|
  {
    if buffers != [] {
      SameFreeBuffers(o, hal, GiveBack(o, hal, t, buffers[0]), buffers[1..], x);
    }
  }

  // ---------- a request without a folded stride ----------

  /** It does not depend on the handle variable at all. */
  lemma SameServe(o: Oracle, hal: Hal, t: Log, decoded: Option<Info>, count: nat, x: Handle)
    requires FoldedStrides(Serve(o, hal, t, decoded, count)) == FoldedStrides(t)
    ensures Serve(WithJunk(o, x), hal, t, decoded, count) == Serve(o, hal, t, decoded, count)
  {
    var r := AllocateBuffers(o, hal, t, decoded, count);
    ServeBalance(o, hal, t, decoded, count, Key(0, 0));
    if decoded.Some? {
      var p, b := Prepare(o, hal, t, decoded.value), BatchProgress(o, hal, t, decoded.value, count);
      SamePrepare(o, hal, t, decoded.value, x);
      if p.error.NONE? {
        SameAttempts(o, p.backend, p.log, [], count, x);
        assert AllJunked([], x) == [] && AllJunked(b.made, x) == b.made;
        SameFreeBuffers(o, hal, Finish(o, p.backend, b.log), Handles(b.made), x);
      }
    }
    SameFreeBuffers(o, hal, Then(r.log, hal.device, ReplyOf(r)), ReplyOf(r).handles, x);
  }

  // ---------- a request with a folded stride ----------

  lemma {:induction false} JunkPushed(made: seq<Attempt>, i: nat, x: Handle)
    requires i < |made| && made[i].Unassigned?
    ensures x in Handles(AllJunked(made, x))
  {
    var last := |made| - 1;
    assert AllJunked(made, x)[..last] == AllJunked(made[..last], x);
    if i < last {
      JunkPushed(made[..last], i, x);
    }
  }

  lemma {:induction false} SafeBeforeFree(o: Oracle, hal: Hal, t: Log, buffers: seq<Handle>)
    requires Safe(FreeBuffers(o, hal, t, buffers))
    ensures Safe(t)
    decreases |buffers|
  {
    if buffers != [] {
      SafeBeforeFree(o, hal, GiveBack(o, hal, t, buffers[0]), buffers[1..]);
    }
  }

  /** Giving back a handle that was never obtained is not safe. */
  lemma {:induction false} FreeNeverObtained(o: Oracle, hal: Hal, t: Log, buffers: seq<Handle>, x: Handle)
    requires x in buffers && BufferTally(t, Key(hal.device, x)).obtained == 0
    ensures !Safe(FreeBuffers(o, hal, t, buffers))
    decreases |buffers|
  {
    var t1 := GiveBack(o, hal, t, buffers[0]);
    if buffers[0] == x {
      assert Live(t, Key(hal.device, x)) <= 0;
      assert !Safe(t1);
      if Safe(FreeBuffers(o, hal, t, buffers)) {
        SafeBeforeFree(o, hal, t1, buffers[1..]);
      }
    } else {
      FreeNeverObtained(o, hal, t1, buffers[1..], x);
    }
  }

  /** The log of the request when its attempts are over and its descriptor is destroyed. */
  function Finished(o: Oracle, hal: Hal, t: Log, info: Info, count: nat): Log {
    Finish(o, Prepare(o, hal, t, info).backend, BatchProgress(o, hal, t, info, count).log)
  }

  /** A handle that the device has not returned by then ends up in the reply, or in a release
      or free of the rollback. */
  lemma FoldedUnsafe(o: Oracle, hal: Hal, t: Log, info: Info, count: nat, x: Handle)
    requires FoldedStrides(Serve(o, hal, t, Some(info), count)) != FoldedStrides(t)
    requires x >= Unused(Finished(o, hal, t, info, count))
    ensures !Safe(Serve(WithJunk(o, x), hal, t, Some(info), count))
  {
    var j, p := WithJunk(o, x), Prepare(o, hal, t, info);
    var b, finished := BatchProgress(o, hal, t, info, count), Finished(o, hal, t, info, count);
    ServeBalance(o, hal, t, Some(info), count, Key(0, 0));
    SamePrepare(o, hal, t, info, x);
    SameAttempts(o, p.backend, p.log, [], count, x);
    assert AllJunked([], x) == [];
    SameVerdict(b.made, x);
    var i: nat :| i < |b.made| && b.made[i].Unassigned?;
    JunkPushed(b.made, i, x);
    UnusedNeverObtained(finished, Key(hal.device, x));
    UnsafeEnd(j, hal, t, info, count, finished, AllJunked(b.made, x), x);
  }

  lemma UnsafeEnd(o: Oracle, hal: Hal, t: Log, info: Info, count: nat, finished: Log, made: seq<Attempt>, x: Handle)
    requires Prepare(o, hal, t, info).error.NONE? && BatchProgress(o, hal, t, info, count).made == made
    requires finished == Finished(o, hal, t, info, count)
    requires x in Handles(made) && BufferTally(finished, Key(hal.device, x)).obtained == 0
    ensures !Safe(Serve(o, hal, t, Some(info), count))
  {
    var r := AllocateBuffers(o, hal, t, Some(info), count);
    var replied := Then(r.log, hal.device, ReplyOf(r));
    if Acceptable(made) {
      var i :| 0 <= i < |Handles(made)| && Handles(made)[i] == x;
      assert ReplyOf(r).handles[i] == x && r.log == finished;
      assert Live(finished, Key(hal.device, x)) <= 0;
    } else {
      FreeNeverObtained(o, hal, finished, Handles(made), x);
    }
    if Safe(Serve(o, hal, t, Some(info), count)) {
      SafeBeforeFree(o, hal, replied, ReplyOf(r).handles);
    }
  }

  // ---------- runs ----------

  /** A run without a folded stride does not depend on the handle variable. */
  lemma {:induction false} SameRun(o: Oracle, flags: Flags, ops: seq<Op>, x: Handle)
    requires FoldedStrides(Run(o, flags, ops).log) == 0
    ensures Run(WithJunk(o, x), flags, ops) == Run(o, flags, ops)
  {
    if ops != [] {
      var before, op := ops[..|ops| - 1], ops[|ops| - 1];
      var s := Run(o, flags, before);
      StepBuffers(o, flags, s, op, Key(0, 0));
      SameRun(o, flags, before, x);
      if Serves(s, op) {
        SameServe(o, s.hals[op.index], s.log, op.decoded, op.count, x);
      }
    }
  }

  // Every log extends the one before it, so that an unsafe call stays in it.

  lemma {:induction false} SafeBeforeConfigure(o: Oracle, v: DeviceId, t: Log, d: Descriptor, settings: seq<Setting>,
                                               conclusion: DeviceError)
    requires Safe(Configure(o, v, t, d, settings, conclusion).log)
    ensures Safe(t)
    decreases |settings|
  {
    if settings != [] && o.answers(t).error.Success? {
      SafeBeforeConfigure(o, v, Then(t, v, Set(d, settings[0], Success)), d, settings[1..], conclusion);
    }
  }

  lemma SafeBeforeAttempt(o: Oracle, b: Backend, t: Log)
    requires Safe(AttemptOne(o, b, t).log)
    ensures Safe(t)
  {
    if b.Described? {
      var a := o.answers(t);
      var given := Then(t, b.device, Allocate(b.descriptor, a.error, a.buffer));
      var g := o.answers(given);
      var measured := Then(given, b.device, GetStride(a.buffer, g.error, g.stride));
      assert Safe(measured) ==> Safe(given);
    }
  }

  lemma {:induction false} SafeBeforeAttempts(o: Oracle, b: Backend, t: Log, made: seq<Attempt>, count: nat)
    requires |made| <= count && PrefixesAcceptable(made)
    requires Safe(Attempts(o, b, t, made, count).log)
    ensures Safe(t)
    decreases count - |made|
  {
    if |made| < count && Acceptable(made) {
      var r := AttemptOne(o, b, t);
      ExtendPrefixes(made, r.attempt);
      SafeBeforeAttempts(o, b, r.log, made + [r.attempt], count);
      SafeBeforeAttempt(o, b, t);
    }
  }

  lemma SafeBeforePrepare(o: Oracle, hal: Hal, t: Log, info: Info)
    requires Safe(Prepare(o, hal, t, info).log)
    ensures Safe(t)
  {
    var a := o.answers(t);
    if hal.Gralloc1? && a.error.Success? {
      var created := Then(t, hal.device, Create(a.error, a.descriptor));
      SafeBeforeConfigure(o, hal.device, created, a.descriptor, Settings(hal, info), Conclusion(hal, info));
    }
  }

  lemma SafeBeforeServe(o: Oracle, hal: Hal, t: Log, decoded: Option<Info>, count: nat)
    requires Safe(Serve(o, hal, t, decoded, count))
    ensures Safe(t)
  {
    var r := AllocateBuffers(o, hal, t, decoded, count);
    SafeBeforeFree(o, hal, Then(r.log, hal.device, ReplyOf(r)), ReplyOf(r).handles);
    if decoded.Some? {
      var p, b := Prepare(o, hal, t, decoded.value), BatchProgress(o, hal, t, decoded.value, count);
      if p.error.NONE? {
        if !Acceptable(b.made) {
          SafeBeforeFree(o, hal, Finish(o, p.backend, b.log), Handles(b.made));
        }
        SafeBeforeAttempts(o, p.backend, p.log, [], count);
      }
      SafeBeforePrepare(o, hal, t, decoded.value);
    }
  }

  lemma SafeBeforeStep(o: Oracle, flags: Flags, s: System, op: Op)
    requires Safe(Step(o, flags, s, op).log)
    ensures Safe(s.log)
  {
    if Serves(s, op) {
      SafeBeforeServe(o, s.hals[op.index], s.log, op.decoded, op.count);
    }
  }

  /** A run with a folded stride is unsafe for some content of the handle variable. */
  lemma {:induction false} FoldedRunUnsafe(o: Oracle, flags: Flags, ops: seq<Op>) returns (x: Handle)
    requires FoldedStrides(Run(o, flags, ops).log) != 0
    ensures !Safe(Run(WithJunk(o, x), flags, ops).log)
  {
    var before, op := ops[..|ops| - 1], ops[|ops| - 1];
    var s := Run(o, flags, before);
    if FoldedStrides(s.log) != 0 {
      x := FoldedRunUnsafe(o, flags, before);
      if Safe(Run(WithJunk(o, x), flags, ops).log) {
        SafeBeforeStep(WithJunk(o, x), flags, Run(WithJunk(o, x), flags, before), op);
      }
    } else {
      if op.LoadModule? {
        LoadTouchesNothing(o, flags, op.m, s.log, Key(0, 0));
      }
      assert Serves(s, op);
      var hal := s.hals[op.index];
      ServeBalance(o, hal, s.log, op.decoded, op.count, Key(0, 0));
      x := Unused(Finished(o, hal, s.log, op.decoded.value, op.count));
      SameRun(o, flags, before, x);
      FoldedUnsafe(o, hal, s.log, op.decoded.value, op.count, x);
    }
  }

  /** A run is safe for every content of the unset handle variables if and only if no getStride
      was answered NOT_SHARED. */
  lemma SafeIff(o: Oracle, flags: Flags, ops: seq<Op>)
    ensures (forall x :: Safe(Run(WithJunk(o, x), flags, ops).log))
            <==> FoldedStrides(Run(o, flags, ops).log) == 0
  {
    if FoldedStrides(Run(o, flags, ops).log) == 0 {
      forall x ensures Safe(Run(WithJunk(o, x), flags, ops).log) {
        SameRun(o, flags, ops, x);
        RunsAreSafe(o, flags, ops);
      }
    } else {
      var x := FoldedRunUnsafe(o, flags, ops);
    }
  }
}
