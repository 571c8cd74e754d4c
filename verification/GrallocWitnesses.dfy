/** Concrete devices: ones for which `toError` turns a NOT_SHARED answer into a NONE that
    assigned nothing, one that makes overlapping requests collide, and one that returns fresh
    handles. They show that the conditions of the general theorems are about something. */
module GrallocWitnesses {
  import opened Options
  import opened GrallocTypes
  import opened UsageFlags
  import opened GrallocLedger
  import opened GrallocBatch
  import opened GrallocBuffers
  import opened GrallocDescriptors
  import opened GrallocLocals

  /** The answer of a device that creates descriptor 5 and hands out buffer 7. */
  function Typical(error: DeviceError): Answer { Answer(error, 0, 5, 7, 64, 0, 1) }

  /** Succeeds in everything except that getStride is answered NOT_SHARED. */
  const SHARED_STRIDE := Oracle(
    (log: Log) => Typical(if log.Then? && log.event.Allocate? then NotShared else Success),
    (log: Log) => Locals(6, 9, 32))

  /** Succeeds in everything except that setFormat is answered NOT_SHARED. */
  const SHARED_FORMAT := Oracle(
    (log: Log) => Typical(if log.Then? && log.event.Set? && log.event.setting.Dimensions? then NotShared else Success),
    (log: Log) => Locals(6, 9, 32))

  /** Can hold one descriptor only: a creation that follows a completed setup fails, and
      leaves the old value 5 in the variable. */
  const SINGLE := Oracle(
    (log: Log) =>
      Typical(if log.Then? && log.event.Set? && log.event.setting.ConsumerUsage? then NoResources else Success),
    (log: Log) => Locals(6, 9, 32))

  const PLAIN := Info(16, 16, 1, 1, {})

  function PlainHal(f: Flags): Hal { Gralloc1(1, false, f) }

  // ---------- helpers ----------

  /** The call to be answered next is an allocation, a stride, a destroy call, or a creation
      that follows a completed setup. */
  predicate AfterSetup(log: Log) {
    log.Then? && (log.event.Allocate? || (log.event.Set? && log.event.setting.ConsumerUsage?))
  }

  /** Answers Success to everything up to the end of a first setup. */
  ghost predicate Obliging(o: Oracle) {
    forall log: Log | !AfterSetup(log) :: o.answers(log) == Typical(Success)
  }

  lemma {:induction false} AllSet(o: Oracle, t: Log, ss: seq<Setting>)
    requires Obliging(o) && t.Then? && !AfterSetup(t)
    requires forall i | 0 <= i < |ss| - 1 :: !ss[i].ConsumerUsage?
    ensures var r := Configure(o, 1, t, 5, ss, Success);
            && r.error.Success? && r.log.Then?
            && (if ss == [] then r.log == t else r.log.event == Set(5, ss[|ss| - 1], Success))
    decreases |ss|
  {
    if |ss| > 1 {
      var next := Then(t, 1, Set(5, ss[0], Success));
      assert forall i | 0 <= i < |ss| - 2 :: ss[1..][i] == ss[i + 1];
      AllSet(o, next, ss[1..]);
    } else if |ss| == 1 {
      assert ss[1..] == [];
    }
  }

  /** An obliging device assigns the descriptor and leaves nothing else to say about setup. */
  lemma PlainSetup(o: Oracle, f: Flags)
    requires Obliging(o)
    ensures var s := CreateDescriptor(o, PlainHal(f), Start, PLAIN);
            && s.error.NONE? && s.written == Some(5)
            && s.log.Then? && s.log.event.Set? && s.log.event.setting.ConsumerUsage?
  {
    var ss := Settings(PlainHal(f), PLAIN);
    AllSet(o, Then(Start, 1, Create(Success, 5)), ss);
  }

  lemma BatchOfOne(o: Oracle, b: Backend, t: Log)
    requires !AttemptOne(o, b, t).attempt.Failed?
    ensures var r := AttemptOne(o, b, t);
            && Attempts(o, b, t, [], 1) == Progress([r.attempt], r.log)
            && Acceptable([r.attempt]) && Handles([r.attempt]) == [r.attempt.buffer]
  {
    var r := AttemptOne(o, b, t);
    ExtendPrefixes([], r.attempt);
    assert [] + [r.attempt] == [r.attempt];
    assert [r.attempt][..0] == [];
  }

  // ---------- a stride answer folded into NONE ----------

  lemma FoldedAttempt(d: Descriptor, t: Log)
    requires t.Then? && !t.event.Allocate?
    ensures var r := AttemptDescribed(SHARED_STRIDE, 1, d, t);
            && r.attempt == Unassigned(9, 32)
            && BufferTally(r.log, Key(1, 9)) == BufferTally(t, Key(1, 9))
            && BufferTally(r.log, Key(1, 7))
               == BufferStep(BufferStep(BufferTally(t, Key(1, 7)), Allocate(d, Success, 7), 7), Release(7, Success), 7)
  {
    var given := Then(t, 1, Allocate(d, Success, 7));
    assert SHARED_STRIDE.answers(t) == Typical(Success);
    assert SHARED_STRIDE.answers(given).error == NotShared;
    var measured := Then(given, 1, GetStride(7, NotShared, 64));
    assert BufferTally(measured, Key(1, 7)) == BufferTally(given, Key(1, 7));
    assert BufferTally(measured, Key(1, 9)) == BufferTally(given, Key(1, 9));
    assert AttemptDescribed(SHARED_STRIDE, 1, d, t).log == Then(measured, 1, Release(7, Success));
  }

  /** The client is told NONE and given handle 9, which the device never handed out, while
      the buffer it did hand out has already been released. */
  lemma StrideAnswerFolded(f: Flags)
    ensures var r := AllocateBuffers(SHARED_STRIDE, PlainHal(f), Start, Some(PLAIN), 1);
            && r.error.NONE? && r.out == Some(Batch(32, [9]))
            && BufferTally(r.log, Key(1, 9)) == Tally(0, 0, 0)
            && BufferTally(r.log, Key(1, 7)) == Tally(1, 1, 0)
  {
    var hal := PlainHal(f);
    PlainSetup(SHARED_STRIDE, f);
    var p := Prepare(SHARED_STRIDE, hal, Start, PLAIN);
    FoldedAttempt(p.backend.descriptor, p.log);
    BatchOfOne(SHARED_STRIDE, p.backend, p.log);
    var t := AttemptOne(SHARED_STRIDE, p.backend, p.log).log;
    PrepareBalance(SHARED_STRIDE, hal, Start, PLAIN, Key(1, 9));
    PrepareBalance(SHARED_STRIDE, hal, Start, PLAIN, Key(1, 7));
    FinishBalance(SHARED_STRIDE, p.backend, t, Key(1, 9));
    FinishBalance(SHARED_STRIDE, p.backend, t, Key(1, 7));
  }

  // ---------- a setup answer folded into NONE ----------

  /** createDescriptor reports NONE although it has destroyed the descriptor and assigned
      nothing. */
  lemma FormatAnswerFolded(f: Flags)
    ensures var s := CreateDescriptor(SHARED_FORMAT, PlainHal(f), Start, PLAIN);
            && s.error.NONE? && s.written.None?
            && s.log.Then? && s.log.event == Destroy(5, Success)
  {
    var ss := Settings(PlainHal(f), PLAIN);
    var t1 := Then(Start, 1, Create(Success, 5));
    var t2 := Then(t1, 1, Set(5, ss[0], Success));
    assert ss[0].Dimensions? && ss[1..] != [];
    assert SHARED_FORMAT.answers(t2).error.NotShared?;
    assert Configure(SHARED_FORMAT, 1, t2, 5, ss[1..], Success).error.NotShared?;
  }

  lemma UnsetPrepared(f: Flags)
    ensures var p := Prepare(SHARED_FORMAT, PlainHal(f), Start, PLAIN);
            && p.error.NONE? && p.backend == Described(1, 6)
            && LifeOf(p.log, Key(1, 6)).config == None && Uses(p.log) == []
  {
    FormatAnswerFolded(f);
    NoneMeansAssigned(SHARED_FORMAT, PlainHal(f), Start, PLAIN);
    CreateAbandons(SHARED_FORMAT, PlainHal(f), Start, PLAIN, Key(1, 6));
  }

  /** The request then goes on and makes its allocation on descriptor 6, which was never
      created. */
  lemma UnsetDescriptorUsed(f: Flags)
    ensures Uses(Serve(SHARED_FORMAT, PlainHal(f), Start, Some(PLAIN), 1)) == [None]
  {
    UnsetPrepared(f);
    var p := Prepare(SHARED_FORMAT, PlainHal(f), Start, PLAIN);
    UsesAfterPrepare(SHARED_FORMAT, PlainHal(f), Start, PLAIN, 1);
    OneAttempt(SHARED_FORMAT, p.backend, p.log);
    assert [] + Repeat(None, 1) == [None];
  }

  lemma OneAttempt(o: Oracle, b: Backend, t: Log)
    ensures |Attempts(o, b, t, [], 1).made| == 1
  {
    assert Acceptable([]);
  }

  // ---------- requests that overlap ----------

  /** Two requests of which the second starts while the first holds its descriptor: the
      creation of the second fails, its destroy call hits the descriptor of the first, and the
      first then allocates on a dead descriptor. */
  lemma OverlappingRequestsCollide(f: Flags)
    ensures var first := CreateDescriptor(SINGLE, PlainHal(f), Start, PLAIN);
            var second := CreateDescriptor(SINGLE, PlainHal(f), first.log, PLAIN);
            && first.error.NONE? && first.written == Some(5)
            && LifeOf(first.log, Key(1, 5)).config == Some(FullConfig(PlainHal(f), PLAIN))
            && second.error == NO_RESOURCES
            && Uses(AttemptDescribed(SINGLE, 1, 5, second.log).log) == [None]
  {
    var hal := PlainHal(f);
    var first := CreateDescriptor(SINGLE, hal, Start, PLAIN);
    PlainSetup(SINGLE, f);
    CreateAssigns(SINGLE, hal, Start, PLAIN, Key(1, 5));
    NoneMeansAssigned(SINGLE, hal, Start, PLAIN);
    var second := CreateDescriptor(SINGLE, hal, first.log, PLAIN);
    FailedCreateHitsIff(SINGLE, hal, first.log, PLAIN, Key(1, 5));
    NoneMeansAssigned(SINGLE, hal, first.log, PLAIN);
    AttemptUses(SINGLE, 1, 5, second.log);
    assert Uses(Start) + Repeat(None, 1) == [None];
  }

  // ---------- a device with fresh handles ----------

  /** Succeeds in everything and always returns a new handle. */
  const FRESH := Oracle((log: Log) => Answer(Success, 0, 5, Unused(log), 64, 0, 1), (log: Log) => Locals(6, 9, 32))

  lemma FreshExists()
    ensures FreshDevice(FRESH)
  {
    forall log: Log, v: DeviceId ensures Live(log, Key(v, FRESH.answers(log).buffer)) <= 0 {
      UnusedNeverObtained(log, Key(v, Unused(log)));
    }
  }
}
