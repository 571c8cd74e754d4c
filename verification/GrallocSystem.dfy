/** Whole runs: modules are loaded, allocators serve requests one at a time and are
    destroyed, in any order and against any device. */
module GrallocSystem {
  import opened Options
  import opened GrallocTypes
  import opened UsageFlags
  import opened GrallocLedger
  import opened GrallocBatch
  import opened GrallocBuffers
  import opened GrallocSafety
  import opened GrallocDescriptors

  // ---------- loading ----------

  /** The gralloc1 functions a device can offer. */
  datatype Function =
    | DUMP | CREATE_DESCRIPTOR | DESTROY_DESCRIPTOR | SET_DIMENSIONS | SET_FORMAT
    | SET_CONSUMER_USAGE | SET_PRODUCER_USAGE | GET_STRIDE | ALLOCATE | RELEASE | SET_LAYER_COUNT

  const REQUIRED := {DUMP, CREATE_DESCRIPTOR, DESTROY_DESCRIPTOR, SET_DIMENSIONS, SET_FORMAT,
                     SET_CONSUMER_USAGE, SET_PRODUCER_USAGE, GET_STRIDE, ALLOCATE, RELEASE}

  const LAYERED_BUFFERS := 2

  /** How a device answers the two getCapabilities calls: the first count, the values the
      second call writes, and the second count. */
  datatype Capabilities = Capabilities(firstCount: nat, written: seq<int>, secondCount: nat)

  function Zeros(n: nat): (s: seq<int>)
    ensures |s| == n && forall i | 0 <= i < n :: s[i] == 0
  {
    seq(n, _ => 0)
  }

  /** std::vector::resize. */
  function Resize(s: seq<int>, n: nat): seq<int> {
    if n <= |s| then s[..n] else s + Zeros(n - |s|)
  }

  /** The vector that initCapabilities searches. */
  function Listed(c: Capabilities): seq<int> {
    Resize(Resize(Resize(c.written, if |c.written| <= c.firstCount then |c.written| else c.firstCount), c.firstCount),
           c.secondCount)
  }

  /** The padding never counts: layered buffers are recognised exactly when the capability is
      among the values that were both written and covered by both counts. */
  lemma ListedLayered(c: Capabilities)
    ensures LAYERED_BUFFERS in Listed(c)
            <==> exists i | 0 <= i < |c.written| && i < c.firstCount && i < c.secondCount ::
                   c.written[i] == LAYERED_BUFFERS
  {
    var l := Listed(c);
    assert forall i | 0 <= i < |l| :: l[i] == if i < |c.written| && i < c.firstCount then c.written[i] else 0;
  }

  function NeededFunctions(layered: bool): set<Function> {
    REQUIRED + if layered then {SET_LAYER_COUNT} else {}
  }

  /** A gralloc module and the device behind it. */
  datatype Module = Module(version: nat, openResult: int, capabilities: Capabilities, functions: set<Function>)

  function MajorVersion(m: Module): nat { m.version / 0x100 % 0x100 }

  lemma MajorByte(m: Module)
    ensures MajorVersion(m) == 0 <==> m.version % 0x1_0000 < 0x100
    ensures MajorVersion(m) == 1 <==> 0x100 <= m.version % 0x1_0000 < 0x200
  {
    var q, w := m.version / 0x1_0000, m.version % 0x1_0000;
    assert m.version == 0x100 * (0x100 * q) + w;
    assert m.version / 0x100 == 0x100 * q + w / 0x100;
    assert 0 <= w / 0x100 < 0x100;
  }

  datatype Loaded = Loaded(hal: Option<Hal>, log: Log)

  /** GrallocLoader::load, up to wrapping the HAL in an allocator. */
  function Load(o: Oracle, flags: Flags, m: Option<Module>, t: Log): Loaded {
    if m.None? || MajorVersion(m.value) > 1 then Loaded(None, t) else
    var v := o.answers(t).device;
    var started := Then(t, v, Open(m.value.openResult));
    if m.value.openResult != 0 then Loaded(None, started)
    else if MajorVersion(m.value) == 0 then Loaded(Some(Gralloc0(v)), started)
    else
      var layered := LAYERED_BUFFERS in Listed(m.value.capabilities);
      if NeededFunctions(layered) <= m.value.functions then Loaded(Some(Gralloc1(v, layered, flags)), started)
      else Loaded(None, Then(started, v, Close))
  }

  /** Every function is needed, the layer count only with layers. */
  lemma AllNeeded(layered: bool, offered: set<Function>)
    ensures NeededFunctions(layered) <= offered
            <==> forall f: Function :: (f.SET_LAYER_COUNT? ==> layered) ==> f in offered
  {
    forall f: Function ensures f in NeededFunctions(layered) <==> (f.SET_LAYER_COUNT? ==> layered) {
      match f
      case DUMP => case CREATE_DESCRIPTOR => case DESTROY_DESCRIPTOR => case SET_DIMENSIONS => case SET_FORMAT =>
      case SET_CONSUMER_USAGE => case SET_PRODUCER_USAGE => case GET_STRIDE => case ALLOCATE => case RELEASE =>
      case SET_LAYER_COUNT =>
    }
  }

  /** Which HAL a load returns, from the raw version word: gralloc1 when its second byte is 1,
      the device opens and offers every function that is needed; gralloc0 when it is 0 and the
      device opens; and none otherwise, without any call when it is neither. The HAL owns the
      device that the open call returned, and knows whether it listed layered buffers. */
  lemma LoadIff(o: Oracle, flags: Flags, m: Module, t: Log)
    ensures var l, v, word, c := Load(o, flags, Some(m), t), o.answers(t).device, m.version % 0x1_0000, m.capabilities;
            var listed := exists i | 0 <= i < |c.written| && i < c.firstCount && i < c.secondCount ::
                            c.written[i] == LAYERED_BUFFERS;
            var offers := forall f: Function :: (f.SET_LAYER_COUNT? ==> listed) ==> f in m.functions;
            && (l.hal.Some? <==> m.openResult == 0 && (word < 0x100 || (word < 0x200 && offers)))
            && (l.hal.Some? ==>
                  && l.hal.value.device == v
                  && (l.hal.value.Gralloc1? <==> 0x100 <= word)
                  && (l.hal.value.Gralloc1? ==> l.hal.value.layered == listed && l.hal.value.flags == flags))
            && l.log == (if word >= 0x200 then t
                         else if m.openResult == 0 && l.hal.None? then Then(Then(t, v, Open(0)), v, Close)
                         else Then(t, v, Open(m.openResult)))
            && Load(o, flags, None, t) == Loaded(None, t)
  {
    ListedLayered(m.capabilities);
    MajorByte(m);
    AllNeeded(LAYERED_BUFFERS in Listed(m.capabilities), m.functions);
  }

  /** A load leaves a device open iff it returns a HAL for it, whatever fails. */
  lemma LoadOwnership(o: Oracle, flags: Flags, m: Option<Module>, t: Log, v: DeviceId)
    ensures var l := Load(o, flags, m, t);
            && OpenBalance(l.log, v) == OpenBalance(t, v) + (if l.hal.Some? && l.hal.value.device == v then 1 else 0)
            && (Safe(t) && (forall w :: OpenBalance(t, w) >= 0) ==> Safe(l.log))
            && (DistinctReplies(Outline(t)) ==> DistinctReplies(Outline(l.log)))
  {
    if m.Some? && MajorVersion(m.value) <= 1 {
      var w := o.answers(t).device;
      var started := Then(t, w, Open(m.value.openResult));
      assert Outline(started) == Then(Outline(t), w, Open(m.value.openResult));
      var closed := Then(started, w, Close);
      assert Outline(closed) == Then(Outline(started), w, Close);
      assert OpenBalance(started, v) == OpenBalance(t, v) + if w == v && m.value.openResult == 0 then 1 else 0;
      assert OpenBalance(closed, v) == OpenBalance(started, v) - if w == v then 1 else 0;
      assert Safe(t) ==> Safe(started);
      if m.value.openResult == 0 && Safe(t) && forall x :: OpenBalance(t, x) >= 0 {
        assert OpenBalance(started, w) == OpenBalance(t, w) + 1 > 0;
        assert Safe(started) && SafeCall(started, w, Close);
      }
    }
  }

  /** Loading touches no buffer and no descriptor. */
  lemma LoadTouchesNothing(o: Oracle, flags: Flags, m: Option<Module>, t: Log, k: Key)
    ensures var l := Load(o, flags, m, t).log;
            && BufferTally(l, k) == BufferTally(t, k) && FoldedStrides(l) == FoldedStrides(t)
            && LifeOf(l, k) == LifeOf(t, k) && Uses(l) == Uses(t) && FoldedSetups(l) == FoldedSetups(t)
  {
    if m.Some? && MajorVersion(m.value) <= 1 {
      var w := o.answers(t).device;
      var started := Then(t, w, Open(m.value.openResult));
      assert BufferTally(started, k) == BufferTally(t, k) && LifeOf(started, k) == LifeOf(t, k);
      assert Uses(started) == Uses(t) + [];
      assert Uses(Then(started, w, Close)) == Uses(started) + [];
    }
  }

  // ---------- runs ----------

  datatype Op =
    | LoadModule(m: Option<Module>)
    | Request(index: nat, decoded: Option<Info>, count: uint32)
    | DestroyAllocator(index: nat)

  /** The allocators alive, each owning one open device, and everything that happened. */
  datatype System = System(hals: seq<Hal>, log: Log)

  function Step(o: Oracle, flags: Flags, s: System, op: Op): System {
    match op
    case LoadModule(m) =>
      var l := Load(o, flags, m, s.log);
      System(if l.hal.Some? then s.hals + [l.hal.value] else s.hals, l.log)
    case Request(i, decoded, count) =>
      if i < |s.hals| then System(s.hals, Serve(o, s.hals[i], s.log, decoded, count)) else s
    case DestroyAllocator(i) =>
      if i < |s.hals| then System(s.hals[..i] + s.hals[i + 1..], Then(s.log, s.hals[i].device, Close)) else s
  }

  function Run(o: Oracle, flags: Flags, ops: seq<Op>): System {
    if ops == [] then System([], Start)
    else Step(o, flags, Run(o, flags, ops[..|ops| - 1]), ops[|ops| - 1])
  }

  /** The operation is a request to an allocator that is alive. */
  predicate Serves(s: System, op: Op) { op.Request? && op.index < |s.hals| }

  // ---------- device ownership ----------

  /** The allocators that own the device `v`. */
  function Owners(hals: seq<Hal>, v: DeviceId): nat {
    if hals == [] then 0 else Owners(hals[1..], v) + if hals[0].device == v then 1 else 0
  }

  lemma {:induction false} OwnersConcat(a: seq<Hal>, b: seq<Hal>, v: DeviceId)
    ensures Owners(a + b, v) == Owners(a, v) + Owners(b, v)
  {
    if a == [] {
      assert a + b == b;
    } else {
      assert (a + b)[1..] == a[1..] + b;
      OwnersConcat(a[1..], b, v);
    }
  }

  lemma OwnersWithout(hals: seq<Hal>, i: nat, v: DeviceId)
    requires i < |hals|
    ensures Owners(hals, v) == Owners(hals[..i] + hals[i + 1..], v) + if hals[i].device == v then 1 else 0
  {
    assert hals == hals[..i] + ([hals[i]] + hals[i + 1..]);
    OwnersConcat(hals[..i], [hals[i]] + hals[i + 1..], v);
    OwnersConcat([hals[i]], hals[i + 1..], v);
    OwnersConcat(hals[..i], hals[i + 1..], v);
  }

  lemma StepOwnership(o: Oracle, flags: Flags, s: System, op: Op, v: DeviceId)
    requires OpenBalance(s.log, v) == Owners(s.hals, v)
    ensures var r := Step(o, flags, s, op); OpenBalance(r.log, v) == Owners(r.hals, v)
  {
    match op
    case LoadModule(m) =>
      LoadOwnership(o, flags, m, s.log, v);
      var l := Load(o, flags, m, s.log);
      if l.hal.Some? {
        OwnersConcat(s.hals, [l.hal.value], v);
      }
    case Request(i, decoded, count) =>
      if i < |s.hals| {
        ServeOutline(o, s.hals[i], s.log, decoded, count);
      }
    case DestroyAllocator(i) =>
      if i < |s.hals| {
        OwnersWithout(s.hals, i, v);
      }
  }

  /** For every device, successful opens less closes is the number of allocators alive that
      own it: each open is matched by one owner or by one close. */
  lemma {:induction false} OpensMatched(o: Oracle, flags: Flags, ops: seq<Op>, v: DeviceId)
    ensures var s := Run(o, flags, ops); OpenBalance(s.log, v) == Owners(s.hals, v)
  {
    if ops != [] {
      OpensMatched(o, flags, ops[..|ops| - 1], v);
      StepOwnership(o, flags, Run(o, flags, ops[..|ops| - 1]), ops[|ops| - 1], v);
    }
  }

  /** The destruction of `n` allocators, one after the other. */
  function DestroyAll(n: nat): seq<Op> {
    if n == 0 then [] else [DestroyAllocator(0)] + DestroyAll(n - 1)
  }

  lemma DestroyFirst(o: Oracle, flags: Flags, ops: seq<Op>)
    requires Run(o, flags, ops).hals != []
    ensures |Run(o, flags, ops + [DestroyAllocator(0)]).hals| == |Run(o, flags, ops).hals| - 1
  {
    assert (ops + [DestroyAllocator(0)])[..|ops|] == ops;
  }

  lemma DestroyAllMore(ops: seq<Op>, n: nat)
    requires n > 0
    ensures ops + DestroyAll(n) == ops + [DestroyAllocator(0)] + DestroyAll(n - 1)
  {}

  lemma {:induction false} NoneLeft(o: Oracle, flags: Flags, ops: seq<Op>, n: nat)
    requires n == |Run(o, flags, ops).hals|
    ensures Run(o, flags, ops + DestroyAll(n)).hals == []
    decreases n
  {
    if n == 0 {
      assert ops + [] == ops;
    } else {
      var first := ops + [DestroyAllocator(0)];
      assert |Run(o, flags, first).hals| == n - 1 by {
        DestroyFirst(o, flags, ops);
      }
      assert ops + DestroyAll(n) == first + DestroyAll(n - 1) by {
        DestroyAllMore(ops, n);
      }
      NoneLeft(o, flags, first, n - 1);
    }
  }

  /** Whatever a run did, destroying its allocators leaves every device as often closed as it
      was opened. */
  lemma AllClosed(o: Oracle, flags: Flags, ops: seq<Op>, v: DeviceId)
    ensures var end := Run(o, flags, ops + DestroyAll(|Run(o, flags, ops).hals|));
            end.hals == [] && OpenBalance(end.log, v) == 0
  {
    var n := |Run(o, flags, ops).hals|;
    NoneLeft(o, flags, ops, n);
    OpensMatched(o, flags, ops + DestroyAll(n), v);
  }

  // ---------- buffers ----------

  /** In the whole log, `k` was given back as often as it was obtained. */
  predicate GivenBackOnce(log: Log, k: Key) {
    BufferTally(log, k).attempted == BufferTally(log, k).obtained
  }

  lemma StepBuffers(o: Oracle, flags: Flags, s: System, op: Op, k: Key)
    ensures var r := Step(o, flags, s, op);
            var extra := BufferTally(r.log, k).attempted - BufferTally(s.log, k).attempted
                         - (BufferTally(r.log, k).obtained - BufferTally(s.log, k).obtained);
            && 0 <= extra
            && FoldedStrides(s.log) <= FoldedStrides(r.log)
            && (FoldedStrides(s.log) == FoldedStrides(r.log) ==> extra == 0)
  {
    match op
    case LoadModule(m) => LoadTouchesNothing(o, flags, m, s.log, k);
    case Request(i, decoded, count) =>
      if i < |s.hals| {
        ServeBalance(o, s.hals[i], s.log, decoded, count, k);
      }
    case DestroyAllocator(_) =>
  }

  /** A step in which a getStride answer NOT_SHARED was folded gives some handle back once
      more than it obtained it. */
  lemma StepFoldedWitness(o: Oracle, flags: Flags, s: System, op: Op) returns (k: Key)
    requires FoldedStrides(Step(o, flags, s, op).log) != FoldedStrides(s.log)
    ensures !ReleasedAsObtained(s.log, Step(o, flags, s, op).log, k)
  {
    if op.LoadModule? {
      LoadTouchesNothing(o, flags, op.m, s.log, Key(0, 0));
    }
    assert Serves(s, op);
    ServeExactlyOnce(o, s.hals[op.index], s.log, op.decoded, op.count);
    k :| !ReleasedAsObtained(s.log, Serve(o, s.hals[op.index], s.log, op.decoded, op.count), k);
  }

  lemma {:induction false} NeverTooFew(o: Oracle, flags: Flags, ops: seq<Op>, k: Key)
    ensures var log := Run(o, flags, ops).log;
            && BufferTally(log, k).attempted >= BufferTally(log, k).obtained
            && (FoldedStrides(log) == 0 ==> GivenBackOnce(log, k))
  {
    if ops != [] {
      NeverTooFew(o, flags, ops[..|ops| - 1], k);
      StepBuffers(o, flags, Run(o, flags, ops[..|ops| - 1]), ops[|ops| - 1], k);
    }
  }

  lemma {:induction false} TooManyWhenFolded(o: Oracle, flags: Flags, ops: seq<Op>) returns (k: Key)
    requires FoldedStrides(Run(o, flags, ops).log) != 0
    ensures !GivenBackOnce(Run(o, flags, ops).log, k)
  {
    var before, op := ops[..|ops| - 1], ops[|ops| - 1];
    var s := Run(o, flags, before);
    if FoldedStrides(s.log) != 0 {
      k := TooManyWhenFolded(o, flags, before);
    } else {
      k := StepFoldedWitness(o, flags, s, op);
    }
    NeverTooFew(o, flags, before, k);
    StepBuffers(o, flags, s, op, k);
  }

  /** Over any run, every buffer obtained had its give-back attempted exactly once and
      nothing else was given back, if and only if no getStride was answered NOT_SHARED. */
  lemma ExactlyOnceIff(o: Oracle, flags: Flags, ops: seq<Op>)
    ensures var log := Run(o, flags, ops).log;
            (forall k :: GivenBackOnce(log, k)) <==> FoldedStrides(log) == 0
  {
    var log := Run(o, flags, ops).log;
    if FoldedStrides(log) == 0 {
      forall k ensures GivenBackOnce(log, k) {
        NeverTooFew(o, flags, ops, k);
      }
    } else {
      var k := TooManyWhenFolded(o, flags, ops);
      assert !GivenBackOnce(log, k);
    }
  }

  /** Conservation over any run: the buffers still live are exactly those whose release or free
      the device refused, once for each refusal, if and only if no getStride was answered
      NOT_SHARED. */
  lemma ConservationIff(o: Oracle, flags: Flags, ops: seq<Op>)
    ensures var log := Run(o, flags, ops).log;
            (forall k :: Live(log, k) == BufferTally(log, k).refused) <==> FoldedStrides(log) == 0
  {
    var log := Run(o, flags, ops).log;
    forall k ensures Live(log, k) == BufferTally(log, k).refused <==> GivenBackOnce(log, k) {}
    ExactlyOnceIff(o, flags, ops);
  }

  // ---------- safety ----------

  /** What holds between the operations of a run. */
  ghost predicate Settled(s: System) {
    && (forall v :: OpenBalance(s.log, v) == Owners(s.hals, v))
    && (forall k :: NoneOverReleased(s.log, k))
  }

  lemma RunSettled(o: Oracle, flags: Flags, ops: seq<Op>)
    requires FoldedStrides(Run(o, flags, ops).log) == 0
    ensures Settled(Run(o, flags, ops))
  {
    var s := Run(o, flags, ops);
    forall v ensures OpenBalance(s.log, v) == Owners(s.hals, v) {
      OpensMatched(o, flags, ops, v);
    }
    forall k ensures NoneOverReleased(s.log, k) {
      ConservationIff(o, flags, ops);
    }
  }

  lemma StepSafe(o: Oracle, flags: Flags, s: System, op: Op)
    requires Settled(s) && FoldedStrides(Step(o, flags, s, op).log) == FoldedStrides(s.log)
    ensures Safe(s.log) ==> Safe(Step(o, flags, s, op).log)
    ensures FreshDevice(o) && DistinctReplies(Outline(s.log)) ==> DistinctReplies(Outline(Step(o, flags, s, op).log))
  {
    match op
    case LoadModule(m) => LoadOwnership(o, flags, m, s.log, 0);
    case Request(i, decoded, count) =>
      if i < |s.hals| {
        OwnersWithout(s.hals, i, s.hals[i].device);
        if Safe(s.log) {
          ServeSafe(o, s.hals[i], s.log, decoded, count);
        }
        if FreshDevice(o) && DistinctReplies(Outline(s.log)) {
          ServeDistinct(o, s.hals[i], s.log, decoded, count);
        }
      }
    case DestroyAllocator(i) =>
      if i < |s.hals| {
        OwnersWithout(s.hals, i, s.hals[i].device);
        assert SafeCall(s.log, s.hals[i].device, Close);
      }
  }

  /** Every call of a run in which no getStride was answered NOT_SHARED was safe: made on a
      device that is open at that moment, never naming a buffer that is not live on it, and every
      handle in a reply was live when the client saw it; with a device that returns fresh handles
      they are pairwise distinct too. GrallocLocals proves that the condition is exact. */
  lemma {:induction false} RunsAreSafe(o: Oracle, flags: Flags, ops: seq<Op>)
    requires FoldedStrides(Run(o, flags, ops).log) == 0
    ensures Safe(Run(o, flags, ops).log)
    ensures FreshDevice(o) ==> DistinctReplies(Outline(Run(o, flags, ops).log))
  {
    if ops != [] {
      var before, op := ops[..|ops| - 1], ops[|ops| - 1];
      var s := Run(o, flags, before);
      StepBuffers(o, flags, s, op, Key(0, 0));
      RunsAreSafe(o, flags, before);
      RunSettled(o, flags, before);
      StepSafe(o, flags, s, op);
    }
  }

  // ---------- descriptors between requests ----------

  /** Between requests a descriptor is live only if the device refused a destroy call made on
      it since it was created. */
  lemma {:induction false} NoDescriptorBetweenRequests(o: Oracle, flags: Flags, ops: seq<Op>, k: Key)
    ensures Abandoned(LifeOf(Run(o, flags, ops).log, k).config)
  {
    if ops != [] {
      var s, op := Run(o, flags, ops[..|ops| - 1]), ops[|ops| - 1];
      NoDescriptorBetweenRequests(o, flags, ops[..|ops| - 1], k);
      match op
      case LoadModule(m) => LoadTouchesNothing(o, flags, m, s.log, k);
      case Request(i, decoded, count) =>
        if i < |s.hals| {
          ServeLeavesNoDescriptor(o, s.hals[i], s.log, decoded, count, k);
        }
      case DestroyAllocator(_) =>
    }
  }

  lemma AllAbandoned(o: Oracle, flags: Flags, ops: seq<Op>)
    ensures forall k :: Abandoned(LifeOf(Run(o, flags, ops).log, k).config)
  {
    forall k ensures Abandoned(LifeOf(Run(o, flags, ops).log, k).config) {
      NoDescriptorBetweenRequests(o, flags, ops, k);
    }
  }

  /** Hence, as long as requests are served one at a time, the destroy call that follows a
      failed creation harms nobody: it can only end the life of a descriptor that the device
      had already refused to destroy. */
  lemma FailedCreateHarmless(o: Oracle, flags: Flags, ops: seq<Op>, hal: Hal, info: Info, k: Key)
    requires hal.Gralloc1? && !o.answers(Run(o, flags, ops).log).error.Success?
    ensures var log := Run(o, flags, ops).log;
            var before, after := LifeOf(log, k).config, LifeOf(CreateDescriptor(o, hal, log, info).log, k).config;
            after == before || (k == Target(o, hal, log) && before.Some? && before.value.doomed)
  {
    var log := Run(o, flags, ops).log;
    NoDescriptorBetweenRequests(o, flags, ops, k);
    CreateAbandons(o, hal, log, info, k);
  }

  // ---------- descriptors are configured when used ----------

  /** The configurations that all allocations of a run should find, in order. */
  function RunWanted(o: Oracle, flags: Flags, ops: seq<Op>): seq<Option<Config>> {
    if ops == [] then [] else
    var before, op := ops[..|ops| - 1], ops[|ops| - 1];
    var s := Run(o, flags, before);
    RunWanted(o, flags, before)
    + if Serves(s, op) then Wanted(o, s.hals[op.index], s.log, op.decoded, op.count) else []
  }

  /** The j-th operation, if it is a request, heeded its setup. */
  predicate HeededAt(o: Oracle, flags: Flags, ops: seq<Op>, j: nat)
    requires j < |ops|
  {
    var s, op := Run(o, flags, ops[..j]), ops[j];
    Serves(s, op) ==> SetupHeeded(o, s.hals[op.index], s.log, op.decoded, op.count)
  }

  predicate AllHeeded(o: Oracle, flags: Flags, ops: seq<Op>) {
    forall j | 0 <= j < |ops| :: HeededAt(o, flags, ops, j)
  }

  lemma HeededPrefix(o: Oracle, flags: Flags, ops: seq<Op>, n: nat, j: nat)
    requires j < n <= |ops|
    ensures HeededAt(o, flags, ops[..n], j) <==> HeededAt(o, flags, ops, j)
  {
    assert ops[..n][..j] == ops[..j];
  }

  lemma HeededInit(o: Oracle, flags: Flags, ops: seq<Op>)
    requires ops != []
    ensures AllHeeded(o, flags, ops)
            <==> AllHeeded(o, flags, ops[..|ops| - 1]) && HeededAt(o, flags, ops, |ops| - 1)
  {
    var n := |ops| - 1;
    forall j | 0 <= j < n ensures HeededAt(o, flags, ops[..n], j) <==> HeededAt(o, flags, ops, j) {
      HeededPrefix(o, flags, ops, n, j);
    }
  }

  lemma StepUses(o: Oracle, flags: Flags, s: System, op: Op)
    requires forall k :: Abandoned(LifeOf(s.log, k).config)
    ensures var r := Step(o, flags, s, op);
            if Serves(s, op) then
              var wanted := Wanted(o, s.hals[op.index], s.log, op.decoded, op.count);
              && |Uses(r.log)| == |Uses(s.log)| + |wanted| && Uses(s.log) <= Uses(r.log)
              && (Uses(r.log) == Uses(s.log) + wanted
                  <==> SetupHeeded(o, s.hals[op.index], s.log, op.decoded, op.count))
            else Uses(r.log) == Uses(s.log)
  {
    if Serves(s, op) {
      var u := ServeUses(o, s.hals[op.index], s.log, op.decoded, op.count);
      ServeTypestate(o, s.hals[op.index], s.log, op.decoded, op.count);
    } else if op.LoadModule? {
      LoadTouchesNothing(o, flags, op.m, s.log, Key(0, 0));
    } else {
      assert Uses(Step(o, flags, s, op).log) == Uses(s.log) + [];
    }
  }

  lemma SplitEqual<T>(a: seq<T>, b: seq<T>, x: seq<T>, y: seq<T>)
    requires |a| == |b| && |x| == |y|
    ensures a + x == b + y <==> a == b && x == y
  {
    if a + x == b + y {
      assert a == (a + x)[..|a|] && b == (b + y)[..|b|];
      assert x == (a + x)[|a|..] && y == (b + y)[|b|..];
    }
  }

  /** One more operation keeps the uses as wanted iff it heeded its setup. */
  lemma TypestateStep(o: Oracle, flags: Flags, ops: seq<Op>)
    requires ops != []
    ensures var n := |ops| - 1;
            var past, now := Uses(Run(o, flags, ops[..n]).log), Uses(Run(o, flags, ops).log);
            var wanted := RunWanted(o, flags, ops[..n]);
            |past| == |wanted| ==>
              && |now| == |RunWanted(o, flags, ops)|
              && (now == RunWanted(o, flags, ops) <==> past == wanted && HeededAt(o, flags, ops, n))
  {
    var n := |ops| - 1;
    var s, r := Run(o, flags, ops[..n]), Run(o, flags, ops);
    var past, now := Uses(s.log), Uses(r.log);
    AllAbandoned(o, flags, ops[..n]);
    StepUses(o, flags, s, ops[n]);
    var more := if Serves(s, ops[n]) then Wanted(o, s.hals[ops[n].index], s.log, ops[n].decoded, ops[n].count) else [];
    assert now == past + now[|past|..];
    if |past| == |RunWanted(o, flags, ops[..n])| {
      SplitEqual(past, RunWanted(o, flags, ops[..n]), now[|past|..], more);
      SplitEqual(past, past, now[|past|..], more);
    }
  }

  /** Descriptor typestate over every run: all device allocates, in order, were made on live
      descriptors that had been given exactly the settings of the request being served and
      had not been through a destroy call, if and only if every request that allocated had no
      setup call answered NOT_SHARED. */
  lemma {:induction false} RunTypestate(o: Oracle, flags: Flags, ops: seq<Op>)
    ensures |Uses(Run(o, flags, ops).log)| == |RunWanted(o, flags, ops)|
    ensures Uses(Run(o, flags, ops).log) == RunWanted(o, flags, ops) <==> AllHeeded(o, flags, ops)
  {
    if ops != [] {
      RunTypestate(o, flags, ops[..|ops| - 1]);
      TypestateStep(o, flags, ops);
      HeededInit(o, flags, ops);
    }
  }

  // ---------- descriptors are destroyed exactly once ----------

  /** The j-th operation, if it is a gralloc1 request, got its descriptor created and had no
      setup call answered NOT_SHARED. */
  predicate CleanAt(o: Oracle, flags: Flags, ops: seq<Op>, j: nat)
    requires j < |ops|
  {
    var s, op := Run(o, flags, ops[..j]), ops[j];
    Serves(s, op) ==> CleanSetup(o, s.hals[op.index], s.log, op.decoded, op.count)
  }

  lemma StepExcess(o: Oracle, flags: Flags, s: System, op: Op, k: Key)
    ensures var r := Step(o, flags, s, op);
            && Excess(s.log, k) <= Excess(r.log, k)
            && ((Serves(s, op) ==> CleanSetup(o, s.hals[op.index], s.log, op.decoded, op.count))
                ==> Excess(s.log, k) == Excess(r.log, k))
  {
    match op
    case LoadModule(m) => LoadTouchesNothing(o, flags, m, s.log, k);
    case Request(i, decoded, count) =>
      if i < |s.hals| {
        ServeExcessGrows(o, s.hals[i], s.log, decoded, count, k);
      }
    case DestroyAllocator(_) =>
  }

  lemma {:induction false} NeverTooFewDestroys(o: Oracle, flags: Flags, ops: seq<Op>, k: Key)
    ensures Excess(Run(o, flags, ops).log, k) >= 0
    ensures (forall j | 0 <= j < |ops| :: CleanAt(o, flags, ops, j)) ==> Excess(Run(o, flags, ops).log, k) == 0
  {
    if ops != [] {
      var n := |ops| - 1;
      var before := ops[..n];
      NeverTooFewDestroys(o, flags, before, k);
      StepExcess(o, flags, Run(o, flags, before), ops[n], k);
      if forall j | 0 <= j < |ops| :: CleanAt(o, flags, ops, j) {
        assert CleanAt(o, flags, ops, n);
        forall j | 0 <= j < n ensures CleanAt(o, flags, before, j) {
          assert CleanAt(o, flags, ops, j) && before[..j] == ops[..j];
        }
      }
    }
  }

  lemma {:induction false} TooManyDestroys(o: Oracle, flags: Flags, ops: seq<Op>, j: nat) returns (k: Key)
    requires j < |ops| && !CleanAt(o, flags, ops, j)
    ensures Excess(Run(o, flags, ops).log, k) > 0
  {
    var n := |ops| - 1;
    var before := ops[..n];
    var s := Run(o, flags, before);
    if j < n {
      assert before[..j] == ops[..j];
      k := TooManyDestroys(o, flags, before, j);
    } else {
      k := ServeExcessWitness(o, s.hals[ops[n].index], s.log, ops[n].decoded, ops[n].count);
    }
    NeverTooFewDestroys(o, flags, before, k);
    StepExcess(o, flags, s, ops[n], k);
  }

  /** Over any run each descriptor was destroyed exactly as often as it was created, if and
      only if every gralloc1 request had its creation answered Success and no setup call
      answered NOT_SHARED. */
  lemma DestroyedOnceIff(o: Oracle, flags: Flags, ops: seq<Op>)
    ensures (forall k :: Excess(Run(o, flags, ops).log, k) == 0)
            <==> forall j | 0 <= j < |ops| :: CleanAt(o, flags, ops, j)
  {
    if j :| 0 <= j < |ops| && !CleanAt(o, flags, ops, j) {
      var k := TooManyDestroys(o, flags, ops, j);
    } else {
      forall k ensures Excess(Run(o, flags, ops).log, k) == 0 {
        NeverTooFewDestroys(o, flags, ops, k);
      }
    }
  }
}
