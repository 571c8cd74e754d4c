/** What the log alone says about a request: how each allocation came out, how descriptor setup
    ended, what the client was told, and what was given back, in order. The transaction is
    proved to report exactly that. */
module GrallocEvidence {
  import opened Options
  import opened GrallocTypes
  import opened UsageFlags
  import opened GrallocLedger
  import opened GrallocBatch
  import opened GrallocOutcome
  import opened GrallocBuffers
  import opened GrallocSystem

  // ---------- reading a log ----------

  /** What came of an allocation, as the device answered it: a buffer with its stride, a
      refusal by allocate or getStride, or an errno value. */
  datatype Obtained = Buffer(handle: Handle, stride: uint32) | Refused(answer: DeviceError) | Errno(result: int)

  /** A buffer counts when its stride is known; `allocate` alone only counts when it fails. */
  function ObtainedBy(e: Event): seq<Obtained>
    requires e.Allocate? || e.GetStride? || e.Alloc?
  {
    match e
    case Allocate(_, error, _) => if error.Success? || error.NotShared? then [] else [Refused(error)]
    case GetStride(buffer, error, stride) =>
      if error.Success? || error.Undefined? then [Buffer(buffer, stride)] else [Refused(error)]
    case Alloc(_, result, buffer, signedStride) =>
      [if result == 0 then Buffer(buffer, ToUint32(signedStride)) else Errno(result)]
  }

  /** Everything obtained, the answer to the last creation or setter call, the replies, and
      the handles given back. */
  datatype Reading = Reading(
    obtained: seq<Obtained>, setup: Option<DeviceError>, replies: seq<Event>, returned: seq<Handle>)

  function Read(log: Log): Reading {
    if log.Start? then Reading([], None, [], []) else
    var r, e := Read(log.past), log.event;
    match e
    case Create(error, _) => r.(setup := Some(error))
    case Set(_, _, error) => r.(setup := Some(error))
    case Allocate(_, _, _) => r.(obtained := r.obtained + ObtainedBy(e))
    case GetStride(_, _, _) => r.(obtained := r.obtained + ObtainedBy(e))
    case Alloc(_, _, _, _) => r.(obtained := r.obtained + ObtainedBy(e))
    case Release(buffer, _) => r.(returned := r.returned + [buffer])
    case Free(buffer, _) => r.(returned := r.returned + [buffer])
    case Reply(_, _, _) => r.(replies := r.replies + [e])
    case _ => r
  }

  // ---------- what a request should report ----------

  /** The error a client is told for an allocation that obtained nothing. */
  predicate Reports(e: Obtained, error: Error) {
    match e
    case Buffer(_, _) => false
    case Refused(answer) => error == ToError(answer)
    case Errno(result) => error == if result == -22 then BAD_VALUE else NO_RESOURCES
  }

  /** All are buffers, and once a stride is nonzero the later ones repeat it. */
  predicate Uniform(got: seq<Obtained>) {
    && (forall i | 0 <= i < |got| :: got[i].Buffer?)
    && forall i, j | 0 <= i < j < |got| :: got[i].stride != 0 ==> got[j].stride == got[i].stride
  }

  /** The reply to a batch of `count` for which `got` was obtained. */
  predicate BatchReply(count: nat, got: seq<Obtained>, reply: Event)
    requires reply.Reply?
  {
    if reply.outcome.NONE? then
      && |got| == count == |reply.handles| && Uniform(got)
      && (forall i | 0 <= i < count :: reply.handles[i] == got[i].handle)
      && reply.replyStride == if count == 0 then 0 else got[count - 1].stride
    else
      && 0 < |got| <= count && Uniform(got[..|got| - 1]) && !Uniform(got)
      && (if got[|got| - 1].Buffer? then reply.outcome.UNSUPPORTED? else Reports(got[|got| - 1], reply.outcome))
      && reply.handles == [] && reply.replyStride == 0
  }

  /** gralloc0 cannot serve more than one layer, nor usage bits beyond the low 32. */
  predicate BeyondGralloc0(info: Info) {
    info.layerCount > 1 || !forall bit | bit in info.usage :: bit < 32
  }

  /** The reply that a request with these inputs and these readings before and after it should
      have: an error of decoding, of the checks of gralloc0 or of descriptor setup, with
      nothing else, or else that of the batch. */
  predicate Warranted(hal: Hal, decoded: Option<Info>, count: nat, before: Reading, after: Reading, reply: Event)
    requires reply.Reply?
  {
    if decoded.None? then reply == Reply(BAD_DESCRIPTOR, 0, [])
    else if hal.Gralloc0? && count > 0 && BeyondGralloc0(decoded.value) then reply == Reply(BAD_VALUE, 0, [])
    else if hal.Gralloc1? && after.setup.Some? && !after.setup.value.Success? && !after.setup.value.NotShared? then
      reply == Reply(ToError(after.setup.value), 0, [])
    else if hal.Gralloc1? && after.setup == Some(Success) && !hal.layered && decoded.value.layerCount > 1 then
      reply == Reply(UNSUPPORTED, 0, [])
    else
      && before.obtained <= after.obtained
      && (hal.Gralloc1? ==> after.setup.Some?)
      && BatchReply(count, after.obtained[|before.obtained|..], reply)
  }

  // ---------- setup ----------

  lemma {:induction false} ReadConfigure(o: Oracle, v: DeviceId, t: Log, d: Descriptor, settings: seq<Setting>,
                                         conclusion: DeviceError)
    requires Read(t).setup == Some(Success)
    ensures var r := Configure(o, v, t, d, settings, conclusion);
            && Read(r.log).setup.Some? && Read(r.log) == Read(t).(setup := Read(r.log).setup)
            && r.error == var e := Read(r.log).setup.value; if e.Success? then conclusion else e
    decreases |settings|
  {
    if settings != [] && o.answers(t).error.Success? {
      ReadConfigure(o, v, Then(t, v, Set(d, settings[0], Success)), d, settings[1..], conclusion);
    }
  }

  /** The preparation of a gralloc1 request fails exactly as its last setup call was answered,
      or for want of layers when all were answered Success. */
  lemma ReadPrepare(o: Oracle, hal: Hal, t: Log, info: Info)
    ensures var p := Prepare(o, hal, t, info);
            var e := Read(p.log).setup;
            && Read(p.log) == Read(t).(setup := e)
            && (hal.Gralloc0? ==> p.log == t && p.error.NONE?)
            && (hal.Gralloc1? ==>
                  && e.Some?
                  && p.error == if !e.value.Success? then ToError(e.value)
                                else if !hal.layered && info.layerCount > 1 then UNSUPPORTED else NONE)
  {
    if hal.Gralloc1? {
      var a := o.answers(t);
      var created := Then(t, hal.device, Create(a.error, a.descriptor));
      assert Read(created) == Read(t).(setup := Some(a.error));
      if a.error.Success? {
        ReadConfigure(o, hal.device, created, a.descriptor, Settings(hal, info), Conclusion(hal, info));
      }
    }
  }

  // ---------- the attempts ----------

  /** The attempt is what the log says was obtained. */
  predicate Attests(e: Obtained, a: Attempt) {
    match e
    case Buffer(handle, stride) => a == Got(handle, stride)
    case Refused(answer) => if answer.NotShared? then a.Unassigned? else a.Failed? && Reports(e, a.error)
    case Errno(_) => a.Failed? && Reports(e, a.error)
  }

  predicate AttestsAll(got: seq<Obtained>, made: seq<Attempt>) {
    |got| == |made| && forall i | 0 <= i < |made| :: Attests(got[i], made[i])
  }

  lemma AttestsCons(e: Obtained, rest: seq<Obtained>, made: seq<Attempt>, all: seq<Attempt>)
    requires |made| < |all| && AttestsAll(rest, all[|made| + 1..]) && Attests(e, all[|made|])
    ensures AttestsAll([e] + rest, all[|made|..])
  {
    assert all[|made|..] == [all[|made|]] + all[|made| + 1..];
  }

  lemma Regroup<T>(a: seq<T>, b: seq<T>, c: seq<T>)
    ensures a + b + c == a + (b + c)
  {}

  lemma ReadAttempt(o: Oracle, b: Backend, t: Log) returns (e: Obtained)
    requires b.Direct? ==> !BeyondGralloc0(b.info)
    ensures var r := AttemptOne(o, b, t);
            && Read(r.log).obtained == Read(t).obtained + [e] && Attests(e, r.attempt)
            && Read(r.log).setup == Read(t).setup && Read(r.log).replies == Read(t).replies
  {
    var a := o.answers(t);
    match b
    case Direct(v, info) =>
      assert !TooDemanding(info);
      e := ObtainedBy(Alloc(info, a.result, a.buffer, a.signedStride))[0];
    case Described(v, d) =>
      var given := Then(t, v, Allocate(d, a.error, a.buffer));
      if a.error.Success? || a.error.NotShared? {
        var g := o.answers(given);
        e := ObtainedBy(GetStride(a.buffer, g.error, g.stride))[0];
        assert Read(given).obtained == Read(t).obtained + [];
      } else {
        e := Refused(a.error);
      }
  }

  /** The attempts made are, one by one, what the log says was obtained. */
  lemma {:induction false} ReadAttempts(o: Oracle, b: Backend, t: Log, made: seq<Attempt>, count: nat)
      returns (got: seq<Obtained>)
    requires |made| <= count && PrefixesAcceptable(made)
    requires b.Direct? ==> !BeyondGralloc0(b.info)
    ensures var r := Attempts(o, b, t, made, count);
            && Read(r.log).obtained == Read(t).obtained + got && AttestsAll(got, r.made[|made|..])
            && Read(r.log).setup == Read(t).setup && Read(r.log).replies == Read(t).replies
    decreases count - |made|
  {
    got := [];
    if |made| < count && Acceptable(made) {
      var r := AttemptOne(o, b, t);
      ExtendPrefixes(made, r.attempt);
      var e := ReadAttempt(o, b, t);
      var rest := ReadAttempts(o, b, r.log, made + [r.attempt], count);
      got := [e] + rest;
      Regroup(Read(t).obtained, [e], rest);
      AttestsCons(e, rest, made, Attempts(o, b, r.log, made + [r.attempt], count).made);
    }
  }

  lemma {:induction false} FreedInOrder(o: Oracle, hal: Hal, t: Log, buffers: seq<Handle>)
    ensures var r := Read(FreeBuffers(o, hal, t, buffers));
            r == Read(t).(returned := Read(t).returned + buffers)
    decreases |buffers|
  {
    if buffers == [] {
      assert Read(t).returned + [] == Read(t).returned;
    } else {
      var t1 := GiveBack(o, hal, t, buffers[0]);
      FreedInOrder(o, hal, t1, buffers[1..]);
      assert Read(t1) == Read(t).(returned := Read(t).returned + [buffers[0]]);
      assert Read(t).returned + [buffers[0]] + buffers[1..] == Read(t).returned + buffers;
    }
  }

  // ---------- the batch ----------

  lemma {:induction false} HandlesAt(made: seq<Attempt>, i: nat)
    requires i < |made| && forall j | 0 <= j < |made| :: !made[j].Failed?
    ensures |Handles(made)| == |made| && Handles(made)[i] == made[i].buffer
  {
    var init := made[..|made| - 1];
    if i < |init| {
      HandlesAt(init, i);
    } else if init != [] {
      HandlesAt(init, 0);
    }
  }

  /** Without junk among them, the attempts are acceptable when what was obtained is uniform. */
  lemma UniformAttested(got: seq<Obtained>, made: seq<Attempt>)
    requires AttestsAll(got, made) && forall i | 0 <= i < |made| :: !made[i].Unassigned?
    ensures Uniform(got) <==> Acceptable(made)
  {
    assert forall i | 0 <= i < |made| :: Attests(got[i], made[i]);
    assert forall i | 0 <= i < |made| :: got[i].Buffer? <==> !made[i].Failed?;
    assert forall i | 0 <= i < |made| :: got[i].Buffer? ==> got[i].stride == StrideOf(made[i]);
  }

  /** The reply of a batch whose attempts were `made`. */
  predicate RepliesTo(made: seq<Attempt>, reply: Event) {
    reply == if Acceptable(made) then Reply(NONE, LastStride(made), Handles(made)) else Reply(Verdict(made), 0, [])
  }

  lemma CleanBatchReply(count: nat, got: seq<Obtained>, made: seq<Attempt>, reply: Event)
    requires |made| <= count && PrefixesAcceptable(made) && (|made| == count || !Acceptable(made))
    requires ErrorsNamed(made) && AttestsAll(got, made) && RepliesTo(made, reply)
    requires forall i | 0 <= i < |made| :: !made[i].Unassigned?
    ensures BatchReply(count, got, reply)
  {
    UniformAttested(got, made);
    assert forall i | 0 <= i < |made| :: Attests(got[i], made[i]);
    if Acceptable(made) {
      forall i | 0 <= i < count ensures |Handles(made)| == count && Handles(made)[i] == got[i].handle {
        HandlesAt(made, i);
      }
    } else {
      var k := |made| - 1;
      assert AttestsAll(got[..k], made[..k]);
      UniformAttested(got[..k], made[..k]);
      assert Attests(got[k], made[k]);
    }
  }

  /** A junk handle never passes for a reply that the log supports. */
  lemma JunkBatchReply(count: nat, got: seq<Obtained>, made: seq<Attempt>, reply: Event, i: nat)
    requires ErrorsNamed(made) && AttestsAll(got, made) && RepliesTo(made, reply)
    requires i < |made| && made[i].Unassigned?
    ensures !BatchReply(count, got, reply)
  {
    assert Attests(got[i], made[i]);
    assert got[i].Refused? && got[i].answer.NotShared?;
    if i < |got| - 1 {
      assert got[..|got| - 1][i] == got[i];
    }
  }

  // ---------- the request ----------

  lemma ReadBatch(o: Oracle, hal: Hal, t: Log, info: Info, count: nat) returns (got: seq<Obtained>)
    requires Prepare(o, hal, t, info).error.NONE? && (hal.Gralloc0? ==> !BeyondGralloc0(info))
    ensures var b, r := BatchProgress(o, hal, t, info, count), Read(AllocateBuffers(o, hal, t, Some(info), count).log);
            && r.obtained == Read(t).obtained + got && AttestsAll(got, b.made)
            && r.setup == Read(Prepare(o, hal, t, info).log).setup && r.replies == Read(t).replies
  {
    var p, b := Prepare(o, hal, t, info), BatchProgress(o, hal, t, info, count);
    ReadPrepare(o, hal, t, info);
    got := ReadAttempts(o, p.backend, p.log, [], count);
    assert b.made[0..] == b.made;
    var finished := Finish(o, p.backend, b.log);
    assert Read(finished) == Read(b.log);
    FreedInOrder(o, hal, finished, Handles(b.made));
  }

  lemma {:induction false} RepliesOfOutline(log: Log)
    ensures Read(log).replies == Read(Outline(log)).replies
  {
    if log.Then? {
      RepliesOfOutline(log.past);
    }
  }

  lemma NoReplyYet(o: Oracle, hal: Hal, t: Log, decoded: Option<Info>, count: nat)
    ensures Read(AllocateBuffers(o, hal, t, decoded, count).log).replies == Read(t).replies
  {
    AllocateBuffersBalance(o, hal, t, decoded, count, Key(0, 0));
    RepliesOfOutline(AllocateBuffers(o, hal, t, decoded, count).log);
    RepliesOfOutline(t);
  }

  /** The client is told the error of the batch, with the stride and the handles of its
      out-parameters on NONE and with nothing on an error; then these handles are given back, in
      order. */
  lemma ServeReply(o: Oracle, hal: Hal, t: Log, decoded: Option<Info>, count: nat)
    ensures var r := AllocateBuffers(o, hal, t, decoded, count);
            var told := if r.error.NONE? then Reply(NONE, r.out.value.stride, r.out.value.buffers)
                        else Reply(r.error, 0, []);
            var end := Read(Serve(o, hal, t, decoded, count));
            && end.replies == Read(t).replies + [told]
            && end.returned == Read(r.log).returned + told.handles
            && end.obtained == Read(r.log).obtained && end.setup == Read(r.log).setup
  {
    var r := AllocateBuffers(o, hal, t, decoded, count);
    NoReplyYet(o, hal, t, decoded, count);
    var replied := Then(r.log, hal.device, ReplyOf(r));
    assert Read(replied) == Read(r.log).(replies := Read(r.log).replies + [ReplyOf(r)]);
    FreedInOrder(o, hal, replied, ReplyOf(r).handles);
  }

  /** The only new reply in the readings before and after a request. */
  predicate Answered(before: Reading, after: Reading) {
    && |after.replies| == |before.replies| + 1 && before.replies <= after.replies
    && after.replies[|before.replies|].Reply?
  }

  /** What the client is told is what the log says, in error, stride and handles, if and only if
      no getStride of the request was answered NOT_SHARED. */
  lemma ServeWarrantedIff(o: Oracle, hal: Hal, t: Log, decoded: Option<Info>, count: nat)
    ensures var before, after := Read(t), Read(Serve(o, hal, t, decoded, count));
            && Answered(before, after)
            && (Warranted(hal, decoded, count, before, after, after.replies[|before.replies|])
                <==> FoldedStrides(Serve(o, hal, t, decoded, count)) == FoldedStrides(t))
  {
    ServeReply(o, hal, t, decoded, count);
    ServeBalance(o, hal, t, decoded, count, Key(0, 0));
    if decoded.Some? {
      var info := decoded.value;
      ReadPrepare(o, hal, t, info);
      if hal.Gralloc0? && BeyondGralloc0(info) {
        assert TooDemanding(info);
        Gralloc0Demanding(o, hal.device, t, info, count);
        assert count == 0 || Made(o, hal, t, decoded, count) == [Failed(BAD_VALUE)] by {
          if count > 0 {
            DemandingAttempts(o, hal.device, t, info, count);
          }
        }
      } else if Prepare(o, hal, t, info).error.NONE? {
        var r := AllocateBuffers(o, hal, t, decoded, count);
        BatchWarrantedIff(o, hal, t, info, count,
                          if r.error.NONE? then Reply(NONE, r.out.value.stride, r.out.value.buffers)
                          else Reply(r.error, 0, []));
      }
    }
  }

  /** Setup, if there is any, has gone through, and the request gets to its batch. */
  predicate Prepared(hal: Hal, info: Info, after: Reading) {
    match hal
    case Gralloc0(_) => !BeyondGralloc0(info)
    case Gralloc1(_, layered, _) =>
      && after.setup.Some?
      && (after.setup.value.NotShared? || (after.setup.value.Success? && (layered || info.layerCount <= 1)))
  }

  lemma WarrantedBatch(hal: Hal, info: Info, count: nat, before: Reading, after: Reading, reply: Event,
                       got: seq<Obtained>)
    requires reply.Reply? && Prepared(hal, info, after) && after.obtained == before.obtained + got
    ensures Warranted(hal, Some(info), count, before, after, reply) <==> BatchReply(count, got, reply)
  {
    assert after.obtained[|before.obtained|..] == got;
  }

  lemma BatchReplyIff(count: nat, got: seq<Obtained>, made: seq<Attempt>, reply: Event)
    requires |made| <= count && PrefixesAcceptable(made) && (|made| == count || !Acceptable(made))
    requires ErrorsNamed(made) && AttestsAll(got, made) && RepliesTo(made, reply)
    ensures BatchReply(count, got, reply) <==> JunkHandles(made) == []
  {
    if i: nat :| i < |made| && made[i].Unassigned? {
      JunkBatchReply(count, got, made, reply, i);
    } else {
      CleanBatchReply(count, got, made, reply);
    }
  }

  lemma BatchWarrantedIff(o: Oracle, hal: Hal, t: Log, info: Info, count: nat, told: Event)
    requires Prepare(o, hal, t, info).error.NONE? && (hal.Gralloc0? ==> !BeyondGralloc0(info))
    requires Read(Serve(o, hal, t, Some(info), count)).replies == Read(t).replies + [told] && told.Reply?
    ensures Warranted(hal, Some(info), count, Read(t), Read(Serve(o, hal, t, Some(info), count)), told)
            <==> JunkHandles(Made(o, hal, t, Some(info), count)) == []
  {
    ServeReply(o, hal, t, Some(info), count);
    ReadPrepare(o, hal, t, info);
    var got := ReadBatch(o, hal, t, info, count);
    var made := Made(o, hal, t, Some(info), count);
    assert (Read(t).replies + [told])[|Read(t).replies|] == told;
    assert RepliesTo(made, told);
    BatchReplyIff(count, got, made, told);
    WarrantedBatch(hal, info, count, Read(t), Read(Serve(o, hal, t, Some(info), count)), told, got);
  }

  // ---------- the calls that are made ----------

  /** The stride asked for is that of the buffer just handed out on the same device. */
  predicate Measures(past: Log, v: DeviceId, e: Event)
    requires e.GetStride?
  {
    && past.Then? && past.device == v && past.event.Allocate? && past.event.buffer == e.buffer
    && (past.event.error.Success? || past.event.error.NotShared?)
  }

  /** The call is one that this HAL has reason to make for a request for `info`: on its own
      device, of its own version of the interface, and about the right buffer. */
  predicate Fitting(hal: Hal, info: Info, past: Log, v: DeviceId, e: Event) {
    DeviceCall(e) ==>
      && v == hal.device
      && match hal
         case Gralloc0(_) => (e.Alloc? && e.info == info) || e.Free?
         case Gralloc1(_, _, _) => !e.Alloc? && !e.Free? && (e.GetStride? ==> Measures(past, v, e))
  }

  /** The other calls in a log. */
  function Strangers(hal: Hal, info: Info, log: Log): nat {
    if log.Start? then 0 else
    Strangers(hal, info, log.past) + if Fitting(hal, info, log.past, log.device, log.event) then 0 else 1
  }

  lemma {:induction false} ConfigureFits(o: Oracle, hal: Hal, t: Log, d: Descriptor, settings: seq<Setting>,
                                         conclusion: DeviceError, info: Info)
    requires hal.Gralloc1?
    ensures Strangers(hal, info, Configure(o, hal.device, t, d, settings, conclusion).log) == Strangers(hal, info, t)
    decreases |settings|
  {
    if settings != [] && o.answers(t).error.Success? {
      ConfigureFits(o, hal, Then(t, hal.device, Set(d, settings[0], Success)), d, settings[1..], conclusion, info);
    }
  }

  lemma PrepareFits(o: Oracle, hal: Hal, t: Log, info: Info)
    ensures Strangers(hal, info, Prepare(o, hal, t, info).log) == Strangers(hal, info, t)
  {
    if hal.Gralloc1? {
      var a := o.answers(t);
      var created := Then(t, hal.device, Create(a.error, a.descriptor));
      ConfigureFits(o, hal, created, a.descriptor, Settings(hal, info), Conclusion(hal, info), info);
    }
  }

  lemma AttemptFits(o: Oracle, hal: Hal, b: Backend, t: Log, info: Info)
    requires b.device == hal.device && (if hal.Gralloc0? then b == Direct(hal.device, info) else b.Described?)
    ensures Strangers(hal, info, AttemptOne(o, b, t).log) == Strangers(hal, info, t)
  {
    if b.Described? {
      var a := o.answers(t);
      var given := Then(t, b.device, Allocate(b.descriptor, a.error, a.buffer));
      var g := o.answers(given);
      var measured := Then(given, b.device, GetStride(a.buffer, g.error, g.stride));
      assert Strangers(hal, info, given) == Strangers(hal, info, t);
      if a.error.Success? || a.error.NotShared? {
        assert Strangers(hal, info, measured) == Strangers(hal, info, given);
      }
    }
  }

  lemma {:induction false} AttemptsFit(o: Oracle, hal: Hal, b: Backend, t: Log, made: seq<Attempt>, count: nat,
                                       info: Info)
    requires b.device == hal.device && (if hal.Gralloc0? then b == Direct(hal.device, info) else b.Described?)
    requires |made| <= count && PrefixesAcceptable(made)
    ensures Strangers(hal, info, Attempts(o, b, t, made, count).log) == Strangers(hal, info, t)
    decreases count - |made|
  {
    if |made| < count && Acceptable(made) {
      var r := AttemptOne(o, b, t);
      ExtendPrefixes(made, r.attempt);
      AttemptFits(o, hal, b, t, info);
      AttemptsFit(o, hal, b, r.log, made + [r.attempt], count, info);
    }
  }

  lemma {:induction false} FreeFits(o: Oracle, hal: Hal, t: Log, buffers: seq<Handle>, info: Info)
    ensures Strangers(hal, info, FreeBuffers(o, hal, t, buffers)) == Strangers(hal, info, t)
    decreases |buffers|
  {
    if buffers != [] {
      FreeFits(o, hal, GiveBack(o, hal, t, buffers[0]), buffers[1..], info);
    }
  }

  /** A request makes no call that does not fit it. */
  lemma ServeFits(o: Oracle, hal: Hal, t: Log, decoded: Option<Info>, count: nat, info: Info)
    requires decoded.Some? ==> decoded.value == info
    ensures Strangers(hal, info, Serve(o, hal, t, decoded, count)) == Strangers(hal, info, t)
  {
    var r := AllocateBuffers(o, hal, t, decoded, count);
    FreeFits(o, hal, Then(r.log, hal.device, ReplyOf(r)), ReplyOf(r).handles, info);
    if decoded.Some? {
      var p, b := Prepare(o, hal, t, info), BatchProgress(o, hal, t, info, count);
      PrepareFits(o, hal, t, info);
      if p.error.NONE? {
        AttemptsFit(o, hal, p.backend, p.log, [], count, info);
        FreeFits(o, hal, Finish(o, p.backend, b.log), Handles(b.made), info);
      }
    }
  }

  // ---------- runs ----------

  /** What the j-th operation told its client is what the log says; nothing if it is not a
      request to an allocator that is alive. */
  predicate WarrantedAt(o: Oracle, flags: Flags, ops: seq<Op>, j: nat)
    requires j < |ops|
  {
    var s, op := Run(o, flags, ops[..j]), ops[j];
    var before, after := Read(s.log), Read(Run(o, flags, ops[..j + 1]).log);
    if Serves(s, op) then
      && Answered(before, after)
      && Warranted(s.hals[op.index], op.decoded, op.count, before, after, after.replies[|before.replies|])
    else after.replies == before.replies
  }

  lemma LoadReplies(o: Oracle, flags: Flags, m: Option<Module>, t: Log)
    ensures Read(Load(o, flags, m, t).log).replies == Read(t).replies
  {
    if m.Some? {
      var started := Then(t, o.answers(t).device, Open(m.value.openResult));
      assert Read(started) == Read(t);
      assert Read(Then(started, o.answers(t).device, Close)) == Read(started);
    }
  }

  lemma WarrantedAtIff(o: Oracle, flags: Flags, ops: seq<Op>, j: nat)
    requires j < |ops|
    ensures WarrantedAt(o, flags, ops, j)
            <==> FoldedStrides(Run(o, flags, ops[..j + 1]).log) == FoldedStrides(Run(o, flags, ops[..j]).log)
  {
    var s, op := Run(o, flags, ops[..j]), ops[j];
    assert ops[..j + 1][..j] == ops[..j];
    if Serves(s, op) {
      ServeWarrantedIff(o, s.hals[op.index], s.log, op.decoded, op.count);
    } else if op.LoadModule? {
      LoadTouchesNothing(o, flags, op.m, s.log, Key(0, 0));
      LoadReplies(o, flags, op.m, s.log);
    }
  }

  lemma WarrantedAtPrefix(o: Oracle, flags: Flags, ops: seq<Op>, n: nat, j: nat)
    requires j < n <= |ops|
    ensures WarrantedAt(o, flags, ops[..n], j) <==> WarrantedAt(o, flags, ops, j)
  {
    assert ops[..n][..j] == ops[..j] && ops[..n][..j + 1] == ops[..j + 1];
  }

  /** Over any run every client is told what the log says about its request, if and only if no
      getStride was answered NOT_SHARED. */
  lemma {:induction false} RunWarrantedIff(o: Oracle, flags: Flags, ops: seq<Op>)
    ensures (forall j | 0 <= j < |ops| :: WarrantedAt(o, flags, ops, j))
            <==> FoldedStrides(Run(o, flags, ops).log) == 0
  {
    if ops != [] {
      var n := |ops| - 1;
      var before := ops[..n];
      RunWarrantedIff(o, flags, before);
      StepBuffers(o, flags, Run(o, flags, before), ops[n], Key(0, 0));
      WarrantedAtIff(o, flags, ops, n);
      assert ops[..n + 1] == ops;
      forall j | 0 <= j < n ensures WarrantedAt(o, flags, before, j) <==> WarrantedAt(o, flags, ops, j) {
        WarrantedAtPrefix(o, flags, ops, n, j);
      }
    }
  }
}
