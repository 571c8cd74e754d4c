/** The allocation transaction both HALs implement, as a function from the log before a
    call to its outcome and the log after it. A HAL contributes how it prepares a request,
    how it attempts one buffer, and how it finishes; the batch in between is shared. */
module GrallocBatch {
  import opened Options
  import opened GrallocTypes
  import opened UsageFlags

  /** A HAL is known by the device it owns and, for gralloc1, by what initialisation found. */
  datatype Hal = Gralloc0(device: DeviceId) | Gralloc1(device: DeviceId, layered: bool, flags: Flags)

  // ---------- one buffer ----------

  /** The outcome of one allocateOneBuffer call. `Unassigned` is a NONE that left the
      caller's out-variables as they were. */
  datatype Attempt =
    | Failed(error: Error)
    | Got(buffer: Handle, stride: uint32)
    | Unassigned(buffer: Handle, stride: uint32)

  datatype AttemptResult = AttemptResult(attempt: Attempt, log: Log)

  /** What the attempts of a request work on: the decoded info, or a device descriptor. */
  datatype Backend = Direct(device: DeviceId, info: Info) | Described(device: DeviceId, descriptor: Descriptor)

  predicate TooDemanding(info: Info) {
    info.layerCount > 1 || exists bit :: bit in info.usage && bit >= 32
  }

  function AttemptDirect(o: Oracle, v: DeviceId, info: Info, t: Log): AttemptResult {
    if TooDemanding(info) then AttemptResult(Failed(BAD_VALUE), t) else
    var a := o.answers(t);
    AttemptResult(
      if a.result == 0 then Got(a.buffer, ToUint32(a.signedStride))
      else Failed(if a.result == MINUS_EINVAL then BAD_VALUE else NO_RESOURCES),
      Then(t, v, Alloc(info, a.result, a.buffer, a.signedStride)))
  }

  function AttemptDescribed(o: Oracle, v: DeviceId, d: Descriptor, t: Log): AttemptResult {
    var a := o.answers(t);
    var given := Then(t, v, Allocate(d, a.error, a.buffer));
    if !a.error.Success? && !a.error.NotShared? then
      AttemptResult(Failed(ToError(a.error)), given)
    else
      var g := o.answers(given);
      var measured := Then(given, v, GetStride(a.buffer, g.error, g.stride));
      if g.error.Success? || g.error.Undefined? then
        AttemptResult(Got(a.buffer, g.stride), measured)
      else
        var released := Then(measured, v, Release(a.buffer, o.answers(measured).error));
        var junk := o.locals(released);
        AttemptResult(
          if g.error.NotShared? then Unassigned(junk.buffer, junk.stride) else Failed(ToError(g.error)),
          released)
  }

  function AttemptOne(o: Oracle, b: Backend, t: Log): (r: AttemptResult)
    ensures r.attempt.Failed? ==> !r.attempt.error.NONE?
  {
    match b
    case Direct(v, info) => AttemptDirect(o, v, info, t)
    case Described(v, d) => AttemptDescribed(o, v, d, t)
  }

  // ---------- the batch ----------

  function StrideOf(a: Attempt): uint32 { if a.Failed? then 0 else a.stride }

  /** All attempts succeeded, and once a stride is nonzero every later one equals it:
      zeros followed by one repeated value. */
  predicate Acceptable(made: seq<Attempt>) {
    && (forall i | 0 <= i < |made| :: !made[i].Failed?)
    && forall i, j | 0 <= i < j < |made| :: StrideOf(made[i]) != 0 ==> StrideOf(made[j]) == StrideOf(made[i])
  }

  function LastStride(made: seq<Attempt>): uint32 {
    if made == [] then 0 else StrideOf(made[|made| - 1])
  }

  /** NONE for an acceptable batch, else the error of its last attempt, where a
      successful last attempt can only have broken the stride. */
  function Verdict(made: seq<Attempt>): Error {
    if Acceptable(made) then NONE
    else if made[|made| - 1].Failed? then made[|made| - 1].error
    else UNSUPPORTED
  }

  /** The handles pushed to the vector, in order. */
  function Handles(made: seq<Attempt>): (hs: seq<Handle>)
    ensures |hs| <= |made|
    ensures Acceptable(made) ==> |hs| == |made|
  {
    if made == [] then [] else
    var init, last := made[..|made| - 1], made[|made| - 1];
    Handles(init) + if last.Failed? then [] else [last.buffer]
  }

  /** The attempts made, and the log they leave. */
  datatype Progress = Progress(made: seq<Attempt>, log: Log)

  /** No failed attempt carries the error NONE. */
  predicate ErrorsNamed(made: seq<Attempt>) {
    forall k | 0 <= k < |made| :: made[k].Failed? ==> !made[k].error.NONE?
  }

  predicate PrefixesAcceptable(made: seq<Attempt>) {
    forall k | 0 <= k < |made| :: Acceptable(made[..k])
  }

  /** Attempts go on until there are `count` of them or they stop being acceptable. */
  function Attempts(o: Oracle, b: Backend, t: Log, made: seq<Attempt>, count: nat): (r: Progress)
    requires |made| <= count && PrefixesAcceptable(made)
    ensures made <= r.made
    ensures |r.made| <= count && PrefixesAcceptable(r.made)
    ensures |r.made| == count || !Acceptable(r.made)
    ensures ErrorsNamed(made) ==> ErrorsNamed(r.made)
    decreases count - |made|
  {
    if |made| == count || !Acceptable(made) then Progress(made, t)
    else
      var r := AttemptOne(o, b, t);
      ExtendPrefixes(made, r.attempt);
      Attempts(o, b, r.log, made + [r.attempt], count)
  }

  lemma ExtendPrefixes(made: seq<Attempt>, a: Attempt)
    requires PrefixesAcceptable(made) && Acceptable(made)
    ensures PrefixesAcceptable(made + [a])
  {
    forall k | 0 <= k < |made| + 1 ensures Acceptable((made + [a])[..k]) {
      if k < |made| {
        assert (made + [a])[..k] == made[..k];
      } else {
        assert (made + [a])[..k] == made;
      }
    }
  }

  // ---------- descriptors ----------

  /** The setter calls for a request, and what `createDescriptor` concludes when all of
      them succeed: a layered request on a device without layered buffers stops early. */
  function Settings(hal: Hal, info: Info): seq<Setting>
    requires hal.Gralloc1?
  {
    [Dimensions(info.width, info.height), Format(info.format)]
    + if !hal.layered && info.layerCount > 1 then []
      else (if hal.layered then [LayerCount(info.layerCount)] else [])
           + [ProducerUsage(ToProducerUsage(hal.flags, info.usage)),
              ConsumerUsage(ToConsumerUsage(hal.flags, info.usage))]
  }

  function Conclusion(hal: Hal, info: Info): DeviceError
    requires hal.Gralloc1?
  {
    if !hal.layered && info.layerCount > 1 then Unsupported else Success
  }

  datatype Configured = Configured(error: DeviceError, log: Log)

  /** Makes the setter calls in order up to the first one that is not answered Success. */
  function Configure(o: Oracle, v: DeviceId, t: Log, d: Descriptor, settings: seq<Setting>,
                     conclusion: DeviceError): Configured
    decreases |settings|
  {
    if settings == [] then Configured(conclusion, t) else
    var error := o.answers(t).error;
    var set1 := Then(t, v, Set(d, settings[0], error));
    if error.Success? then Configure(o, v, set1, d, settings[1..], conclusion) else Configured(error, set1)
  }

  /** The outcome of setup when the last answer was `error` and `settings` are still to go. */
  function Resume(o: Oracle, v: DeviceId, error: DeviceError, t: Log, d: Descriptor, settings: seq<Setting>,
                  conclusion: DeviceError): Configured
  {
    if error.Success? then Configure(o, v, t, d, settings, conclusion) else Configured(error, t)
  }

  /** One setter call: the first of `settings` from position `k` on. */
  lemma ResumeNext(o: Oracle, v: DeviceId, t: Log, d: Descriptor, settings: seq<Setting>, k: nat,
                   conclusion: DeviceError)
    requires k < |settings|
    ensures var error := o.answers(t).error;
            Resume(o, v, Success, t, d, settings[k..], conclusion)
            == Resume(o, v, error, Then(t, v, Set(d, settings[k], error)), d, settings[k + 1..], conclusion)
  {
    assert settings[k..][1..] == settings[k + 1..];
  }

  datatype Setup = Setup(error: Error, written: Option<Descriptor>, log: Log)

  function CreateDescriptor(o: Oracle, hal: Hal, t: Log, info: Info): Setup
    requires hal.Gralloc1?
  {
    var a := o.answers(t);
    var created := Then(t, hal.device, Create(a.error, a.descriptor));
    var c := if a.error.Success?
             then Configure(o, hal.device, created, a.descriptor, Settings(hal, info), Conclusion(hal, info))
             else Configured(a.error, created);
    if c.error.Success? then Setup(NONE, Some(a.descriptor), c.log)
    else Setup(ToError(c.error), None, Then(c.log, hal.device, Destroy(a.descriptor, o.answers(c.log).error)))
  }

  // ---------- the transaction ----------

  datatype Prepared = Prepared(error: Error, backend: Backend, log: Log)

  function Prepare(o: Oracle, hal: Hal, t: Log, info: Info): Prepared {
    match hal
    case Gralloc0(v) => Prepared(NONE, Direct(v, info), t)
    case Gralloc1(v, _, _) =>
      var s := CreateDescriptor(o, hal, t, info);
      Prepared(s.error, Described(v, s.written.GetOr(o.locals(s.log).descriptor)), s.log)
  }

  function Finish(o: Oracle, b: Backend, t: Log): Log {
    match b
    case Direct(_, _) => t
    case Described(v, d) => Then(t, v, Destroy(d, o.answers(t).error))
  }

  function GiveBack(o: Oracle, hal: Hal, t: Log, buffer: Handle): Log {
    Then(t, hal.device,
         if hal.Gralloc0? then Free(buffer, o.answers(t).result) else Release(buffer, o.answers(t).error))
  }

  function FreeBuffers(o: Oracle, hal: Hal, t: Log, buffers: seq<Handle>): Log
    decreases |buffers|
  {
    if buffers == [] then t else FreeBuffers(o, hal, GiveBack(o, hal, t, buffers[0]), buffers[1..])
  }

  /** What a successful batch assigns to the caller's out-parameters. */
  datatype Batch = Batch(stride: uint32, buffers: seq<Handle>)

  /** `out` is None when the out-parameters are left untouched. */
  datatype BatchResult = BatchResult(error: Error, out: Option<Batch>, log: Log)

  /** The attempts made for a request, and the log after the last of them. */
  function BatchProgress(o: Oracle, hal: Hal, t: Log, info: Info, count: nat): Progress {
    var p := Prepare(o, hal, t, info);
    if !p.error.NONE? then Progress([], p.log) else Attempts(o, p.backend, p.log, [], count)
  }

  function AllocateBuffers(o: Oracle, hal: Hal, t: Log, decoded: Option<Info>, count: nat): (r: BatchResult)
    ensures r.error.NONE? ==> r.out.Some?
  {
    if decoded.None? then BatchResult(BAD_DESCRIPTOR, None, t) else
    var p := Prepare(o, hal, t, decoded.value);
    if !p.error.NONE? then BatchResult(p.error, None, p.log) else
    var r := Attempts(o, p.backend, p.log, [], count);
    var finished := Finish(o, p.backend, r.log);
    if Acceptable(r.made) then BatchResult(NONE, Some(Batch(LastStride(r.made), Handles(r.made))), finished)
    else BatchResult(Verdict(r.made), None, FreeBuffers(o, hal, finished, Handles(r.made)))
  }

  /** What the client is told: the batch, or an error with nothing. */
  function ReplyOf(r: BatchResult): (e: Event)
    requires r.error.NONE? ==> r.out.Some?
    ensures e.Reply?
  {
    if r.error.NONE? then Reply(NONE, r.out.value.stride, r.out.value.buffers) else Reply(r.error, 0, [])
  }

  /** AllocatorImpl::allocate: answer the client, then free the local handles, if any. */
  function Serve(o: Oracle, hal: Hal, t: Log, decoded: Option<Info>, count: nat): Log {
    var r := AllocateBuffers(o, hal, t, decoded, count);
    FreeBuffers(o, hal, Then(r.log, hal.device, ReplyOf(r)), ReplyOf(r).handles)
  }
}
