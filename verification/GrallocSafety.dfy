/** All-or-nothing batches, and the safety of every device call a request makes. */
module GrallocSafety {
  import opened Options
  import opened GrallocTypes
  import opened GrallocLedger
  import opened GrallocBatch
  import opened GrallocBuffers

  predicate NoneOverReleased(log: Log, k: Key) { Live(log, k) >= 0 }

  /** At least the handles in `hs` are live on `v`, counted with multiplicity. */
  predicate Holds(log: Log, v: DeviceId, hs: seq<Handle>, k: Key) { Live(log, k) >= Copies(v, hs, k) }

  predicate IsOpen(log: Log, v: DeviceId) { OpenBalance(log, v) > 0 }

  lemma MemberCopies(v: DeviceId, hs: seq<Handle>, i: nat)
    requires i < |hs|
    ensures Copies(v, hs, Key(v, hs[i])) > 0
  {
    assert hs[i] in multiset(hs);
  }

  // ---------- safe calls ----------

  lemma AttemptSafe(o: Oracle, b: Backend, t: Log)
    requires Safe(t) && IsOpen(t, b.device) && forall k :: NoneOverReleased(t, k)
    ensures Safe(AttemptOne(o, b, t).log)
  {
    if b.Described? {
      var a := o.answers(t);
      var given := Then(t, b.device, Allocate(b.descriptor, a.error, a.buffer));
      assert NoneOverReleased(t, Key(b.device, a.buffer));
      assert Safe(given);
      if a.error.Success? || a.error.NotShared? {
        var g := o.answers(given);
        assert Live(given, Key(b.device, a.buffer)) > 0;
        assert Safe(Then(given, b.device, GetStride(a.buffer, g.error, g.stride)));
      }
    }
  }

  lemma {:induction false} AttemptsSafe(o: Oracle, b: Backend, t: Log, made: seq<Attempt>, count: nat)
    requires |made| <= count && PrefixesAcceptable(made)
    requires Safe(t) && IsOpen(t, b.device) && forall k :: NoneOverReleased(t, k)
    ensures Safe(Attempts(o, b, t, made, count).log)
    decreases count - |made|
  {
    if |made| < count && Acceptable(made) {
      var r := AttemptOne(o, b, t);
      ExtendPrefixes(made, r.attempt);
      AttemptSafe(o, b, t);
      forall k ensures NoneOverReleased(r.log, k) {
        assert NoneOverReleased(t, k);
        AttemptBalance(o, b, t, k);
      }
      AttemptBalance(o, b, t, Key(0, 0));
      AttemptsSafe(o, b, r.log, made + [r.attempt], count);
    }
  }

  lemma {:induction false} FreeBuffersSafe(o: Oracle, hal: Hal, t: Log, buffers: seq<Handle>)
    requires Safe(t) && IsOpen(t, hal.device) && forall k :: Holds(t, hal.device, buffers, k)
    ensures Safe(FreeBuffers(o, hal, t, buffers))
    decreases |buffers|
  {
    if buffers != [] {
      var t1 := GiveBack(o, hal, t, buffers[0]);
      assert buffers == [buffers[0]] + buffers[1..];
      MemberCopies(hal.device, buffers, 0);
      assert Holds(t, hal.device, buffers, Key(hal.device, buffers[0]));
      forall k ensures Holds(t1, hal.device, buffers[1..], k) {
        assert Holds(t, hal.device, buffers, k);
      }
      FreeBuffersSafe(o, hal, t1, buffers[1..]);
    }
  }

  lemma {:induction false} ConfigureSafe(o: Oracle, v: DeviceId, t: Log, d: Descriptor, settings: seq<Setting>,
                                         conclusion: DeviceError)
    requires Safe(t) && IsOpen(t, v)
    ensures Safe(Configure(o, v, t, d, settings, conclusion).log)
    ensures IsOpen(Configure(o, v, t, d, settings, conclusion).log, v)
    decreases |settings|
  {
    if settings != [] && o.answers(t).error.Success? {
      ConfigureSafe(o, v, Then(t, v, Set(d, settings[0], o.answers(t).error)), d, settings[1..], conclusion);
    }
  }

  lemma PrepareSafe(o: Oracle, hal: Hal, t: Log, info: Info)
    requires Safe(t) && IsOpen(t, hal.device)
    ensures Safe(Prepare(o, hal, t, info).log)
  {
    if hal.Gralloc1? {
      var a := o.answers(t);
      var created := Then(t, hal.device, Create(a.error, a.descriptor));
      assert Safe(created) && IsOpen(created, hal.device);
      ConfigureSafe(o, hal.device, created, a.descriptor, Settings(hal, info), Conclusion(hal, info));
    }
  }

  // ---------- all or nothing ----------

  lemma NoJunk(o: Oracle, hal: Hal, t: Log, decoded: Option<Info>, count: nat)
    requires FoldedStrides(AllocateBuffers(o, hal, t, decoded, count).log) == FoldedStrides(t)
    ensures JunkHandles(Made(o, hal, t, decoded, count)) == []
  {
    AllocateBuffersBalance(o, hal, t, decoded, count, Key(0, 0));
  }

  /** An attempt that got a buffer gave none back. */
  lemma GotKeeps(o: Oracle, b: Backend, t: Log, k: Key)
    requires AttemptOne(o, b, t).attempt.Got?
    ensures BufferTally(AttemptOne(o, b, t).log, k).refused == BufferTally(t, k).refused
  {
    if b.Described? {
      var a := o.answers(t);
      var given := Then(t, b.device, Allocate(b.descriptor, a.error, a.buffer));
      assert BufferTally(AttemptOne(o, b, t).log, k) == BufferTally(given, k);
    }
  }

  lemma {:induction false} AttemptsKeep(o: Oracle, b: Backend, t: Log, made: seq<Attempt>, count: nat, k: Key)
    requires |made| <= count && PrefixesAcceptable(made)
    requires var final := Attempts(o, b, t, made, count).made; Acceptable(final) && JunkHandles(final) == []
    ensures BufferTally(Attempts(o, b, t, made, count).log, k).refused == BufferTally(t, k).refused
    decreases count - |made|
  {
    if |made| < count && Acceptable(made) {
      var r := AttemptOne(o, b, t);
      ExtendPrefixes(made, r.attempt);
      var final := Attempts(o, b, t, made, count).made;
      assert final == Attempts(o, b, r.log, made + [r.attempt], count).made;
      assert final[|made|] == r.attempt && !final[|made|].Failed? && !final[|made|].Unassigned?;
      GotKeeps(o, b, t, k);
      AttemptsKeep(o, b, r.log, made + [r.attempt], count, k);
    }
  }

  lemma NoneKeeps(o: Oracle, hal: Hal, t: Log, decoded: Option<Info>, count: nat, k: Key)
    requires AllocateBuffers(o, hal, t, decoded, count).error.NONE?
    requires JunkHandles(Made(o, hal, t, decoded, count)) == []
    ensures BufferTally(AllocateBuffers(o, hal, t, decoded, count).log, k).refused == BufferTally(t, k).refused
  {
    var p := Prepare(o, hal, t, decoded.value);
    PrepareBalance(o, hal, t, decoded.value, k);
    AttemptsKeep(o, p.backend, p.log, [], count, k);
    FinishBalance(o, p.backend, BatchProgress(o, hal, t, decoded.value, count).log, k);
  }

  /** On NONE the client gets exactly `count` handles and the log holds one live copy more of
      each; on any error nothing is handed out, every buffer obtained, including one whose
      stride broke the batch, had its give-back attempted exactly once, and only those whose
      give-back was refused are still live. */
  lemma AllOrNothing(o: Oracle, hal: Hal, t: Log, decoded: Option<Info>, count: nat, k: Key)
    requires FoldedStrides(AllocateBuffers(o, hal, t, decoded, count).log) == FoldedStrides(t)
    ensures var r := AllocateBuffers(o, hal, t, decoded, count);
            if r.error.NONE? then
              && |r.out.value.buffers| == count
              && Live(r.log, k) == Live(t, k) + Copies(hal.device, r.out.value.buffers, k)
            else
              && r.out.None?
              && ReleasedAsObtained(t, r.log, k)
              && Live(r.log, k) == Live(t, k) + BufferTally(r.log, k).refused - BufferTally(t, k).refused
  {
    var r := AllocateBuffers(o, hal, t, decoded, count);
    NoJunk(o, hal, t, decoded, count);
    AllocateBuffersBalance(o, hal, t, decoded, count, k);
    LiveOf(t, r.log, k, if r.error.NONE? then Copies(hal.device, r.out.value.buffers, k) else 0);
    ErrorWritesNothing(o, hal, t, decoded, count);
    if r.error.NONE? {
      NoneKeeps(o, hal, t, decoded, count, k);
    }
  }

  lemma LiveOf(before: Log, after: Log, k: Key, held: int)
    requires Balance(before, after, k, held, 0)
    ensures Live(after, k)
            == Live(before, k) + held + BufferTally(after, k).refused - BufferTally(before, k).refused
  {}

  lemma ErrorWritesNothing(o: Oracle, hal: Hal, t: Log, decoded: Option<Info>, count: nat)
    ensures var r := AllocateBuffers(o, hal, t, decoded, count);
            if r.error.NONE? then |r.out.value.buffers| == count else r.out.None?
  {}

  lemma DistinctPush(hs: seq<Handle>, x: Handle)
    requires Distinct(hs) && x !in multiset(hs)
    ensures Distinct(hs + [x])
  {
    assert x !in hs;
  }

  lemma DistinctStep(o: Oracle, b: Backend, t: Log, made: seq<Attempt>)
    requires Live(t, Key(b.device, o.answers(t).buffer)) <= 0
    requires Distinct(Handles(made)) && Holds(t, b.device, Handles(made), Key(b.device, o.answers(t).buffer))
    requires !AttemptOne(o, b, t).attempt.Unassigned?
    ensures Distinct(Handles(made + [AttemptOne(o, b, t).attempt]))
  {
    var a := AttemptOne(o, b, t).attempt;
    assert (made + [a])[..|made|] == made;
    if a.Got? {
      assert a.buffer == o.answers(t).buffer;
      DistinctPush(Handles(made), a.buffer);
    }
  }

  lemma HoldsStep(o: Oracle, b: Backend, t: Log, made: seq<Attempt>)
    requires forall k :: Holds(t, b.device, Handles(made), k)
    requires !AttemptOne(o, b, t).attempt.Unassigned?
    ensures forall k :: Holds(AttemptOne(o, b, t).log, b.device, Handles(made + [AttemptOne(o, b, t).attempt]), k)
  {
    var r := AttemptOne(o, b, t);
    forall k ensures Holds(r.log, b.device, Handles(made + [r.attempt]), k) {
      assert Holds(t, b.device, Handles(made), k);
      PushHandle(b.device, made, r.attempt, k);
      AttemptBalance(o, b, t, k);
    }
  }

  lemma {:induction false} AttemptsDistinct(o: Oracle, b: Backend, t: Log, made: seq<Attempt>, count: nat)
    requires |made| <= count && PrefixesAcceptable(made)
    requires FreshDevice(o) && Distinct(Handles(made)) && forall k :: Holds(t, b.device, Handles(made), k)
    requires JunkHandles(Attempts(o, b, t, made, count).made) == []
    ensures Distinct(Handles(Attempts(o, b, t, made, count).made))
    decreases count - |made|
  {
    if |made| < count && Acceptable(made) {
      var r := AttemptOne(o, b, t);
      ExtendPrefixes(made, r.attempt);
      var final := Attempts(o, b, t, made, count).made;
      assert final == Attempts(o, b, r.log, made + [r.attempt], count).made;
      assert final[|made|] == r.attempt;
      DistinctStep(o, b, t, made);
      HoldsStep(o, b, t, made);
      AttemptsDistinct(o, b, r.log, made + [r.attempt], count);
    }
  }

  /** With a device that returns fresh handles, the handles of a successful batch are live
      and pairwise distinct. */
  lemma BatchDistinct(o: Oracle, hal: Hal, t: Log, info: Info, count: nat)
    requires FreshDevice(o) && forall k :: NoneOverReleased(t, k)
    requires FoldedStrides(AllocateBuffers(o, hal, t, Some(info), count).log) == FoldedStrides(t)
    ensures var r := AllocateBuffers(o, hal, t, Some(info), count);
            r.error.NONE? ==> && Distinct(r.out.value.buffers)
                              && forall i | 0 <= i < count :: Live(r.log, Key(hal.device, r.out.value.buffers[i])) > 0
  {
    var p, r := Prepare(o, hal, t, info), AllocateBuffers(o, hal, t, Some(info), count);
    if r.error.NONE? {
      forall k ensures Holds(p.log, hal.device, Handles([]), k) {
        assert NoneOverReleased(t, k);
        PrepareBalance(o, hal, t, info, k);
      }
      NoJunk(o, hal, t, Some(info), count);
      AttemptsDistinct(o, p.backend, p.log, [], count);
      forall i | 0 <= i < count ensures Live(r.log, Key(hal.device, r.out.value.buffers[i])) > 0 {
        var k := Key(hal.device, r.out.value.buffers[i]);
        assert NoneOverReleased(t, k);
        MemberCopies(hal.device, r.out.value.buffers, i);
        AllOrNothing(o, hal, t, Some(info), count, k);
        AllocateBuffersBalance(o, hal, t, Some(info), count, k);
      }
    }
  }

  // ---------- the whole request ----------

  lemma BatchSafe(o: Oracle, hal: Hal, t: Log, info: Info, count: nat)
    requires Safe(t) && IsOpen(t, hal.device) && forall k :: NoneOverReleased(t, k)
    ensures Safe(BatchProgress(o, hal, t, info, count).log)
    ensures IsOpen(BatchProgress(o, hal, t, info, count).log, hal.device)
  {
    var p := Prepare(o, hal, t, info);
    PrepareSafe(o, hal, t, info);
    PrepareBalance(o, hal, t, info, Key(0, 0));
    if p.error.NONE? {
      forall k ensures NoneOverReleased(p.log, k) {
        assert NoneOverReleased(t, k);
        PrepareBalance(o, hal, t, info, k);
      }
      AttemptsBalance(o, p.backend, p.log, [], count, Key(0, 0));
      AttemptsSafe(o, p.backend, p.log, [], count);
    }
  }

  lemma BatchHolds(o: Oracle, hal: Hal, t: Log, info: Info, count: nat, k: Key)
    requires NoneOverReleased(t, k)
    requires var p := BatchProgress(o, hal, t, info, count); JunkHandles(p.made) == []
    ensures var p := BatchProgress(o, hal, t, info, count); Holds(p.log, hal.device, Handles(p.made), k)
  {
    var p := Prepare(o, hal, t, info);
    PrepareBalance(o, hal, t, info, k);
    if p.error.NONE? {
      AttemptsBalance(o, p.backend, p.log, [], count, k);
    }
  }

  lemma FinishSafe(o: Oracle, b: Backend, t: Log, hs: seq<Handle>)
    requires Safe(t) && IsOpen(t, b.device) && forall k :: Holds(t, b.device, hs, k)
    ensures var r := Finish(o, b, t);
            Safe(r) && IsOpen(r, b.device) && forall k :: Holds(r, b.device, hs, k)
  {
    var r := Finish(o, b, t);
    FinishBalance(o, b, t, Key(0, 0));
    forall k ensures Holds(r, b.device, hs, k) {
      assert Holds(t, b.device, hs, k);
      FinishBalance(o, b, t, k);
    }
  }

  lemma AllocateBuffersSafe(o: Oracle, hal: Hal, t: Log, decoded: Option<Info>, count: nat)
    requires Safe(t) && IsOpen(t, hal.device) && forall k :: NoneOverReleased(t, k)
    requires FoldedStrides(AllocateBuffers(o, hal, t, decoded, count).log) == FoldedStrides(t)
    ensures Safe(AllocateBuffers(o, hal, t, decoded, count).log)
  {
    if decoded.Some? {
      var p := Prepare(o, hal, t, decoded.value);
      BatchSafe(o, hal, t, decoded.value, count);
      if p.error.NONE? {
        NoJunk(o, hal, t, decoded, count);
        var r := BatchProgress(o, hal, t, decoded.value, count);
        forall k ensures Holds(r.log, hal.device, Handles(r.made), k) {
          assert NoneOverReleased(t, k);
          BatchHolds(o, hal, t, decoded.value, count, k);
        }
        FinishSafe(o, p.backend, r.log, Handles(r.made));
        if !Acceptable(r.made) {
          FreeBuffersSafe(o, hal, Finish(o, p.backend, r.log), Handles(r.made));
        }
      }
    }
  }

  lemma ReplySafe(o: Oracle, hal: Hal, t: Log, reply: Event)
    requires reply.Reply? && Safe(t) && IsOpen(t, hal.device) && forall k :: Holds(t, hal.device, reply.handles, k)
    ensures Safe(FreeBuffers(o, hal, Then(t, hal.device, reply), reply.handles))
  {
    var replied, hs := Then(t, hal.device, reply), reply.handles;
    forall k ensures Holds(replied, hal.device, hs, k) {
      assert Holds(t, hal.device, hs, k);
    }
    forall i | 0 <= i < |hs| ensures Live(t, Key(hal.device, hs[i])) > 0 {
      MemberCopies(hal.device, hs, i);
      assert Holds(t, hal.device, hs, Key(hal.device, hs[i]));
    }
    FreeBuffersSafe(o, hal, replied, hs);
  }

  lemma ReplyHolds(o: Oracle, hal: Hal, t: Log, decoded: Option<Info>, count: nat, k: Key)
    requires NoneOverReleased(t, k)
    requires FoldedStrides(AllocateBuffers(o, hal, t, decoded, count).log) == FoldedStrides(t)
    ensures var r := AllocateBuffers(o, hal, t, decoded, count); Holds(r.log, hal.device, ReplyOf(r).handles, k)
  {
    AllOrNothing(o, hal, t, decoded, count, k);
    AllocateBuffersBalance(o, hal, t, decoded, count, k);
  }

  /** Every device call of a request happens on the device of its HAL, which is open, every
      release and getStride is on a live buffer, and every handle shown to the client is live
      at that moment. */
  lemma ServeSafe(o: Oracle, hal: Hal, t: Log, decoded: Option<Info>, count: nat)
    requires Safe(t) && IsOpen(t, hal.device) && forall k :: NoneOverReleased(t, k)
    requires FoldedStrides(Serve(o, hal, t, decoded, count)) == FoldedStrides(t)
    ensures Safe(Serve(o, hal, t, decoded, count))
  {
    var r := AllocateBuffers(o, hal, t, decoded, count);
    AllocateBuffersBalance(o, hal, t, decoded, count, Key(0, 0));
    ServeBalance(o, hal, t, decoded, count, Key(0, 0));
    AllocateBuffersSafe(o, hal, t, decoded, count);
    forall k ensures Holds(r.log, hal.device, ReplyOf(r).handles, k) {
      assert NoneOverReleased(t, k);
      ReplyHolds(o, hal, t, decoded, count, k);
    }
    ReplySafe(o, hal, r.log, ReplyOf(r));
  }

  /** ... and afterwards no handle has been given back more often than it was obtained. */
  lemma ServeNeverOverReleases(o: Oracle, hal: Hal, t: Log, decoded: Option<Info>, count: nat, k: Key)
    requires NoneOverReleased(t, k)
    requires FoldedStrides(Serve(o, hal, t, decoded, count)) == FoldedStrides(t)
    ensures NoneOverReleased(Serve(o, hal, t, decoded, count), k)
  {
    ServeConserves(o, hal, t, decoded, count, k);
    ServeBalance(o, hal, t, decoded, count, k);
  }

  /** With a device that returns fresh handles, the reply to a request shows pairwise distinct
      handles. */
  lemma ServeDistinct(o: Oracle, hal: Hal, t: Log, decoded: Option<Info>, count: nat)
    requires FreshDevice(o) && DistinctReplies(Outline(t)) && forall k :: NoneOverReleased(t, k)
    requires FoldedStrides(Serve(o, hal, t, decoded, count)) == FoldedStrides(t)
    ensures DistinctReplies(Outline(Serve(o, hal, t, decoded, count)))
  {
    ServeOutline(o, hal, t, decoded, count);
    ServeBalance(o, hal, t, decoded, count, Key(0, 0));
    AllocateBuffersBalance(o, hal, t, decoded, count, Key(0, 0));
    if decoded.Some? {
      BatchDistinct(o, hal, t, decoded.value, count);
    }
  }
}
