/** Conservation of buffers: what a request obtains, it gives back. */
module GrallocBuffers {
  import opened Options
  import opened GrallocTypes
  import opened GrallocLedger
  import opened GrallocBatch

  /** Between two logs, give-back attempts for `k` plus the copies still held equal the
      copies obtained plus those that were never obtained but taken for real. */
  predicate Balance(before: Log, after: Log, k: Key, held: int, junk: int) {
    var b, a := BufferTally(before, k), BufferTally(after, k);
    && a.attempted + held - b.attempted == a.obtained - b.obtained + junk
    && b.refused <= a.refused
  }

  /** Opens, closes, replies and setup answers are the same in both logs. */
  predicate SameOutline(before: Log, after: Log) {
    Outline(before) == Outline(after) && FoldedSetups(before) == FoldedSetups(after)
  }

  /** Handles that were taken over from a call that reported NONE without assigning one. */
  function JunkHandles(made: seq<Attempt>): (hs: seq<Handle>)
    ensures |hs| <= |made|
    ensures hs == [] <==> forall i | 0 <= i < |made| :: !made[i].Unassigned?
  {
    if made == [] then [] else
    var init, last := made[..|made| - 1], made[|made| - 1];
    var rest := JunkHandles(init);
    assert forall i | 0 <= i < |init| :: made[i] == init[i];
    if last.Unassigned? then
      assert made[|made| - 1].Unassigned?;
      rest + [last.buffer]
    else rest
  }

  /** How often `hs`, handles of the device `v`, contains the handle `k`. */
  function Copies(v: DeviceId, hs: seq<Handle>, k: Key): int {
    if k.device == v then multiset(hs)[k.id] else 0
  }

  lemma PushHandle(v: DeviceId, made: seq<Attempt>, a: Attempt, k: Key)
    ensures Copies(v, Handles(made + [a]), k)
            == Copies(v, Handles(made), k) + if !a.Failed? && k == Key(v, a.buffer) then 1 else 0
    ensures Copies(v, JunkHandles(made + [a]), k)
            == Copies(v, JunkHandles(made), k) + if a.Unassigned? && k == Key(v, a.buffer) then 1 else 0
    ensures |JunkHandles(made + [a])| == |JunkHandles(made)| + if a.Unassigned? then 1 else 0
  {
    assert (made + [a])[..|made|] == made;
  }

  /** The effect of one event. */
  lemma OneEvent(t: Log, v: DeviceId, e: Event, k: Key)
    ensures Balance(t, Then(t, v, e), k,
                    if Obtains(e) && k == Key(v, e.buffer) then 1
                    else if GivesBack(e) && k == Key(v, e.buffer) then -1 else 0, 0)
    ensures FoldedStrides(Then(t, v, e)) == FoldedStrides(t) + (if FoldsStride(e) then 1 else 0)
    ensures DeviceCall(e) && !FoldsSetup(e) ==> SameOutline(t, Then(t, v, e))
  {}

  lemma AttemptDescribedBalance(o: Oracle, v: DeviceId, d: Descriptor, t: Log, k: Key)
    ensures var r := AttemptDescribed(o, v, d, t);
            && Balance(t, r.log, k, if !r.attempt.Failed? && k == Key(v, r.attempt.buffer) then 1 else 0,
                       if r.attempt.Unassigned? && k == Key(v, r.attempt.buffer) then 1 else 0)
            && FoldedStrides(r.log) == FoldedStrides(t) + (if r.attempt.Unassigned? then 1 else 0)
            && SameOutline(t, r.log)
  {
    var a := o.answers(t);
    var t1 := Then(t, v, Allocate(d, a.error, a.buffer));
    OneEvent(t, v, Allocate(d, a.error, a.buffer), k);
    if a.error.Success? || a.error.NotShared? {
      var g := o.answers(t1);
      var t2 := Then(t1, v, GetStride(a.buffer, g.error, g.stride));
      OneEvent(t1, v, GetStride(a.buffer, g.error, g.stride), k);
      if !g.error.Success? && !g.error.Undefined? {
        OneEvent(t2, v, Release(a.buffer, o.answers(t2).error), k);
      }
    }
  }

  lemma AttemptBalance(o: Oracle, b: Backend, t: Log, k: Key)
    ensures var r := AttemptOne(o, b, t);
            && Balance(t, r.log, k, if !r.attempt.Failed? && k == Key(b.device, r.attempt.buffer) then 1 else 0,
                       if r.attempt.Unassigned? && k == Key(b.device, r.attempt.buffer) then 1 else 0)
            && FoldedStrides(r.log) == FoldedStrides(t) + (if r.attempt.Unassigned? then 1 else 0)
            && SameOutline(t, r.log)
  {
    var a := o.answers(t);
    match b
    case Direct(v, info) => OneEvent(t, v, Alloc(info, a.result, a.buffer, a.signedStride), k);
    case Described(v, d) => AttemptDescribedBalance(o, v, d, t, k);
  }

  /** allocateOneBuffer reports NONE without assigning a buffer exactly when its getStride was
      answered NOT_SHARED; the last thing it did was to release the buffer it had got. */
  lemma NoneMeansObtained(o: Oracle, v: DeviceId, d: Descriptor, t: Log)
    ensures var r := AttemptDescribed(o, v, d, t);
            && (r.attempt.Unassigned? <==> FoldedStrides(r.log) != FoldedStrides(t))
            && (r.attempt.Unassigned? ==>
                  r.log.Then? && r.log.event.Release? && r.log.event.buffer == o.answers(t).buffer)
  {
    AttemptDescribedBalance(o, v, d, t, Key(v, 0));
  }

  /** An assigned buffer is live, once more than before. */
  lemma GotIsLive(o: Oracle, b: Backend, t: Log)
    requires AttemptOne(o, b, t).attempt.Got?
    ensures var r := AttemptOne(o, b, t);
            var k := Key(b.device, r.attempt.buffer);
            Live(r.log, k) == Live(t, k) + 1
  {
    if b.Described? {
      var a := o.answers(t);
      var given := Then(t, b.device, Allocate(b.descriptor, a.error, a.buffer));
      var k := Key(b.device, a.buffer);
      assert BufferTally(AttemptOne(o, b, t).log, k) == BufferTally(given, k);
    }
  }

  lemma {:induction false} AttemptsBalance(o: Oracle, b: Backend, t: Log, made: seq<Attempt>, count: nat, k: Key)
    requires |made| <= count && PrefixesAcceptable(made)
    ensures var r := Attempts(o, b, t, made, count);
            && Balance(t, r.log, k, Copies(b.device, Handles(r.made), k) - Copies(b.device, Handles(made), k),
                       Copies(b.device, JunkHandles(r.made), k) - Copies(b.device, JunkHandles(made), k))
            && FoldedStrides(r.log) - FoldedStrides(t) == |JunkHandles(r.made)| - |JunkHandles(made)|
            && SameOutline(t, r.log)
    decreases count - |made|
  {
    if |made| < count && Acceptable(made) {
      var r := AttemptOne(o, b, t);
      ExtendPrefixes(made, r.attempt);
      AttemptBalance(o, b, t, k);
      PushHandle(b.device, made, r.attempt, k);
      AttemptsBalance(o, b, r.log, made + [r.attempt], count, k);
    }
  }

  lemma {:induction false} FreeBuffersBalance(o: Oracle, hal: Hal, t: Log, buffers: seq<Handle>, k: Key)
    ensures var r := FreeBuffers(o, hal, t, buffers);
            && Balance(t, r, k, -Copies(hal.device, buffers, k), 0)
            && FoldedStrides(r) == FoldedStrides(t) && SameOutline(t, r)
    decreases |buffers|
  {
    if buffers != [] {
      var t1 := GiveBack(o, hal, t, buffers[0]);
      assert buffers == [buffers[0]] + buffers[1..];
      FreeBuffersBalance(o, hal, t1, buffers[1..], k);
    }
  }

  lemma {:induction false} ConfigureBalance(o: Oracle, v: DeviceId, t: Log, d: Descriptor, settings: seq<Setting>,
                                            conclusion: DeviceError, k: Key)
    ensures var r := Configure(o, v, t, d, settings, conclusion).log;
            && BufferTally(r, k) == BufferTally(t, k) && FoldedStrides(r) == FoldedStrides(t)
            && Outline(r) == Outline(t)
    decreases |settings|
  {
    if settings != [] {
      var e := Set(d, settings[0], o.answers(t).error);
      ConfigureBalance(o, v, Then(t, v, e), d, settings[1..], conclusion, k);
    }
  }

  lemma PrepareBalance(o: Oracle, hal: Hal, t: Log, info: Info, k: Key)
    ensures var r := Prepare(o, hal, t, info).log;
            && BufferTally(r, k) == BufferTally(t, k) && FoldedStrides(r) == FoldedStrides(t)
            && Outline(r) == Outline(t)
  {
    if hal.Gralloc1? {
      var a := o.answers(t);
      var created := Then(t, hal.device, Create(a.error, a.descriptor));
      ConfigureBalance(o, hal.device, created, a.descriptor, Settings(hal, info), Conclusion(hal, info), k);
    }
  }

  lemma FinishBalance(o: Oracle, b: Backend, t: Log, k: Key)
    ensures var r := Finish(o, b, t);
            && BufferTally(r, k) == BufferTally(t, k) && FoldedStrides(r) == FoldedStrides(t)
            && SameOutline(t, r)
  {}

  /** The attempts of a request; none when its descriptor does not decode. */
  function Made(o: Oracle, hal: Hal, t: Log, decoded: Option<Info>, count: nat): seq<Attempt> {
    if decoded.None? then [] else BatchProgress(o, hal, t, decoded.value, count).made
  }

  /** The batch: on an error every handle pushed is given back, on NONE they are held. */
  lemma AllocateBuffersBalance(o: Oracle, hal: Hal, t: Log, decoded: Option<Info>, count: nat, k: Key)
    ensures var r, made := AllocateBuffers(o, hal, t, decoded, count), Made(o, hal, t, decoded, count);
            && Balance(t, r.log, k, if r.error.NONE? then Copies(hal.device, r.out.value.buffers, k) else 0,
                       Copies(hal.device, JunkHandles(made), k))
            && FoldedStrides(r.log) == FoldedStrides(t) + |JunkHandles(made)|
            && Outline(r.log) == Outline(t)
  {
    if decoded.Some? {
      var p := Prepare(o, hal, t, decoded.value);
      PrepareBalance(o, hal, t, decoded.value, k);
      if p.error.NONE? {
        var r := Attempts(o, p.backend, p.log, [], count);
        AttemptsBalance(o, p.backend, p.log, [], count, k);
        FinishBalance(o, p.backend, r.log, k);
        var finished := Finish(o, p.backend, r.log);
        FreeBuffersBalance(o, hal, finished, Handles(r.made), k);
      }
    }
  }

  /** One request, answered and cleaned up: for every handle and every device, the number
      of give-back attempts is the number of times it was obtained, plus one for each
      getStride answer NOT_SHARED that was taken for success. */
  lemma ServeBalance(o: Oracle, hal: Hal, t: Log, decoded: Option<Info>, count: nat, k: Key)
    ensures var r, made := Serve(o, hal, t, decoded, count), Made(o, hal, t, decoded, count);
            && Balance(t, r, k, 0, Copies(hal.device, JunkHandles(made), k))
            && FoldedStrides(r) == FoldedStrides(t) + |JunkHandles(made)|
  {
    var r := AllocateBuffers(o, hal, t, decoded, count);
    AllocateBuffersBalance(o, hal, t, decoded, count, k);
    OneEvent(r.log, hal.device, ReplyOf(r), k);
    FreeBuffersBalance(o, hal, Then(r.log, hal.device, ReplyOf(r)), ReplyOf(r).handles, k);
  }

  /** Seen from outside, a request is one reply. */
  lemma ServeOutline(o: Oracle, hal: Hal, t: Log, decoded: Option<Info>, count: nat)
    ensures Outline(Serve(o, hal, t, decoded, count))
            == Then(Outline(t), hal.device, ReplyOf(AllocateBuffers(o, hal, t, decoded, count)))
  {
    var r := AllocateBuffers(o, hal, t, decoded, count);
    AllocateBuffersBalance(o, hal, t, decoded, count, Key(0, 0));
    FreeBuffersBalance(o, hal, Then(r.log, hal.device, ReplyOf(r)), ReplyOf(r).handles, Key(0, 0));
  }

  predicate ReleasedAsObtained(before: Log, after: Log, k: Key) {
    BufferTally(after, k).attempted - BufferTally(before, k).attempted
    == BufferTally(after, k).obtained - BufferTally(before, k).obtained
  }

  /** A request gives back exactly what it obtained, handle by handle, if and only if no
      getStride call it made was answered NOT_SHARED. */
  lemma ServeExactlyOnce(o: Oracle, hal: Hal, t: Log, decoded: Option<Info>, count: nat)
    ensures var r := Serve(o, hal, t, decoded, count);
            (forall k :: ReleasedAsObtained(t, r, k)) <==> FoldedStrides(r) == FoldedStrides(t)
  {
    var r, made := Serve(o, hal, t, decoded, count), Made(o, hal, t, decoded, count);
    forall k ensures ReleasedAsObtained(t, r, k) <==> Copies(hal.device, JunkHandles(made), k) == 0 {
      ServeBalance(o, hal, t, decoded, count, k);
    }
    ServeBalance(o, hal, t, decoded, count, Key(0, 0));
    if JunkHandles(made) != [] {
      var k := Key(hal.device, JunkHandles(made)[0]);
      assert k.id in multiset(JunkHandles(made));
      assert !ReleasedAsObtained(t, r, k);
    }
  }

  /** Conservation: without such an answer, the only buffers a request leaves behind are
      those whose release the device refused. */
  lemma ServeConserves(o: Oracle, hal: Hal, t: Log, decoded: Option<Info>, count: nat, k: Key)
    requires FoldedStrides(Serve(o, hal, t, decoded, count)) == FoldedStrides(t)
    ensures var r := Serve(o, hal, t, decoded, count);
            Live(r, k) - Live(t, k) == BufferTally(r, k).refused - BufferTally(t, k).refused
  {
    ServeBalance(o, hal, t, decoded, count, k);
  }
}
