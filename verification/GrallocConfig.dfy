/** What the device is told about a buffer before it is asked for one: the configuration of the
    descriptor at each device allocate, setting by setting, in terms of the request. */
module GrallocConfig {
  import opened Options
  import opened GrallocTypes
  import opened UsageFlags
  import opened GrallocLedger
  import opened GrallocBatch
  import opened GrallocDescriptors
  import opened GrallocSystem

  /** The descriptor carries the width, height and format of the request, its layer count if
      the device has layers, the two halves of its usage, and nothing else; no destroy call
      has been made on it. */
  ghost predicate AsAsked(hal: Hal, info: Info, c: Config)
    requires hal.Gralloc1?
  {
    && !c.doomed
    && (forall w, h :: Dimensions(w, h) in c.settings <==> w == info.width && h == info.height)
    && (forall f :: Format(f) in c.settings <==> f == info.format)
    && (forall n :: LayerCount(n) in c.settings <==> hal.layered && n == info.layerCount)
    && (forall u :: ProducerUsage(u) in c.settings <==> u == ToProducerUsage(hal.flags, info.usage))
    && (forall u :: ConsumerUsage(u) in c.settings <==> u == ToConsumerUsage(hal.flags, info.usage))
  }

  /** Which settings a list of five, or of four without layers, contains. */
  lemma ListedSettings(w: uint32, h: uint32, f: int, layers: seq<uint32>, p: Bits, q: Bits, ss: seq<Setting>)
    requires |layers| <= 1
    requires ss == [Dimensions(w, h), Format(f)] + (if layers == [] then [] else [LayerCount(layers[0])])
                   + [ProducerUsage(p), ConsumerUsage(q)]
    ensures forall s :: s in ss
                        <==> match s
                             case Dimensions(x, y) => x == w && y == h
                             case Format(x) => x == f
                             case LayerCount(x) => x in layers
                             case ProducerUsage(x) => x == p
                             case ConsumerUsage(x) => x == q
  {}

  lemma FullIsAsAsked(hal: Hal, info: Info)
    requires hal.Gralloc1? && (hal.layered || info.layerCount <= 1)
    ensures AsAsked(hal, info, FullConfig(hal, info))
  {
    var p, q := ToProducerUsage(hal.flags, info.usage), ToConsumerUsage(hal.flags, info.usage);
    var layers := if hal.layered then [info.layerCount] else [];
    ListedSettings(info.width, info.height, info.format, layers, p, q, Settings(hal, info));
    assert forall s :: s in FullConfig(hal, info).settings <==> s in Settings(hal, info);
  }

  /** That determines the configuration. */
  lemma AsAskedUnique(hal: Hal, info: Info, c: Config, d: Config)
    requires hal.Gralloc1? && AsAsked(hal, info, c) && AsAsked(hal, info, d)
    ensures c == d
  {
    forall s ensures s in c.settings <==> s in d.settings {
      match s
      case Dimensions(w, h) =>
      case Format(f) =>
      case LayerCount(n) =>
      case ProducerUsage(u) =>
      case ConsumerUsage(u) =>
    }
  }

  /** The two usages set on such a descriptor let the device read the requested usage back if and
      only if that is representable. */
  lemma DeviceReadsUsage(hal: Hal, info: Info, c: Config, producer: Bits, consumer: Bits)
    requires hal.Gralloc1? && AsAsked(hal, info, c)
    requires hal.flags.FieldsDistinct() && hal.flags.CodesDistinct()
    requires ProducerUsage(producer) in c.settings && ConsumerUsage(consumer) in c.settings
    ensures Recover(hal.flags, producer, consumer) == info.usage <==> Representable(hal.flags, info.usage)
  {
    RecoverExactly(hal.flags, info.usage);
  }

  /** Every allocation made between the two logs was made on a descriptor configured as the
      request asks. */
  ghost predicate AllAsAsked(hal: Hal, decoded: Option<Info>, before: Log, after: Log) {
    forall i | |Uses(before)| <= i < |Uses(after)| ::
      hal.Gralloc1? && decoded.Some? && Uses(after)[i].Some? && AsAsked(hal, decoded.value, Uses(after)[i].value)
  }

  /** A request that allocates without a NOT_SHARED setup answer has the layers it needs. */
  lemma LayersAvailable(o: Oracle, hal: Hal, t: Log, info: Info)
    requires hal.Gralloc1? && Prepare(o, hal, t, info).error.NONE?
    requires FoldedSetups(CreateDescriptor(o, hal, t, info).log) == FoldedSetups(t)
    ensures hal.layered || info.layerCount <= 1
  {
    NoneMeansAssigned(o, hal, t, info);
    if !hal.layered && info.layerCount > 1 {
      NeverSuccess(o, hal.device, Then(t, hal.device, Create(o.answers(t).error, o.answers(t).descriptor)),
                   o.answers(t).descriptor, Settings(hal, info), Conclusion(hal, info));
    }
  }

  lemma {:induction false} NeverSuccess(o: Oracle, v: DeviceId, t: Log, d: Descriptor, settings: seq<Setting>,
                                        conclusion: DeviceError)
    requires !conclusion.Success?
    ensures !Configure(o, v, t, d, settings, conclusion).error.Success?
    decreases |settings|
  {
    if settings != [] && o.answers(t).error.Success? {
      NeverSuccess(o, v, Then(t, v, Set(d, settings[0], Success)), d, settings[1..], conclusion);
    }
  }

  lemma SameUses(hal: Hal, decoded: Option<Info>, before: Log, after: Log, u: Option<Config>, n: nat)
    requires Uses(after) == Uses(before) + Repeat(u, n)
    ensures AllAsAsked(hal, decoded, before, after)
            <==> n == 0 || (hal.Gralloc1? && decoded.Some? && u.Some? && AsAsked(hal, decoded.value, u.value))
  {
    assert forall i | |Uses(before)| <= i < |Uses(after)| :: Uses(after)[i] == u;
    if n > 0 {
      assert Uses(after)[|Uses(before)|] == u;
    }
  }

  /** Every allocation of a request is made on a descriptor configured as the request asks, if and
      only if no setup call was answered NOT_SHARED or no allocation was made. */
  lemma ServeAsAskedIff(o: Oracle, hal: Hal, t: Log, decoded: Option<Info>, count: nat)
    requires forall k :: Abandoned(LifeOf(t, k).config)
    ensures AllAsAsked(hal, decoded, t, Serve(o, hal, t, decoded, count)) <==> SetupHeeded(o, hal, t, decoded, count)
  {
    var r, wanted := Serve(o, hal, t, decoded, count), Wanted(o, hal, t, decoded, count);
    var u := ServeUses(o, hal, t, decoded, count);
    SameUses(hal, decoded, t, r, u, |wanted|);
    if wanted != [] {
      var info := decoded.value;
      FoldsDuringSetup(o, hal, t, decoded, count);
      if FoldedSetups(r) == FoldedSetups(t) {
        NoneMeansAssigned(o, hal, t, info);
        LayersAvailable(o, hal, t, info);
        FullIsAsAsked(hal, info);
      }
    }
  }

  // ---------- runs ----------

  ghost predicate AsAskedAt(o: Oracle, flags: Flags, ops: seq<Op>, j: nat)
    requires j < |ops|
  {
    var s, op := Run(o, flags, ops[..j]), ops[j];
    var after := Run(o, flags, ops[..j + 1]).log;
    if Serves(s, op) then AllAsAsked(s.hals[op.index], op.decoded, s.log, after) else Uses(after) == Uses(s.log)
  }

  /** Over any run, every device allocate was made on a live descriptor that carried exactly the
      settings of the request being served, if and only if every request that allocated had no
      setup call answered NOT_SHARED. */
  lemma RunAsAskedIff(o: Oracle, flags: Flags, ops: seq<Op>)
    ensures (forall j | 0 <= j < |ops| :: AsAskedAt(o, flags, ops, j)) <==> AllHeeded(o, flags, ops)
  {
    forall j | 0 <= j < |ops| ensures AsAskedAt(o, flags, ops, j) <==> HeededAt(o, flags, ops, j) {
      var s, op := Run(o, flags, ops[..j]), ops[j];
      assert ops[..j + 1][..j] == ops[..j];
      AllAbandoned(o, flags, ops[..j]);
      StepUses(o, flags, s, op);
      if Serves(s, op) {
        ServeAsAskedIff(o, s.hals[op.index], s.log, op.decoded, op.count);
      }
    }
  }

  /** All gralloc1 allocators of a run use the same flag values. */
  lemma {:induction false} FlagsKept(o: Oracle, flags: Flags, ops: seq<Op>)
    ensures forall i | 0 <= i < |Run(o, flags, ops).hals| ::
              Run(o, flags, ops).hals[i].Gralloc1? ==> Run(o, flags, ops).hals[i].flags == flags
  {
    if ops != [] {
      FlagsKept(o, flags, ops[..|ops| - 1]);
    }
  }

  /** So at every device allocate of such a run the device can read back the usage that the
      client asked for, if and only if that usage is representable. */
  lemma RunUsageReadable(o: Oracle, flags: Flags, ops: seq<Op>, j: nat, i: nat, producer: Bits, consumer: Bits)
    requires flags.FieldsDistinct() && flags.CodesDistinct()
    requires j < |ops| && AsAskedAt(o, flags, ops, j)
    requires |Uses(Run(o, flags, ops[..j]).log)| <= i < |Uses(Run(o, flags, ops[..j + 1]).log)|
    ensures ops[j].Request? && ops[j].decoded.Some?
    ensures var u := Uses(Run(o, flags, ops[..j + 1]).log)[i];
            && u.Some?
            && (ProducerUsage(producer) in u.value.settings && ConsumerUsage(consumer) in u.value.settings ==>
                  (Recover(flags, producer, consumer) == ops[j].decoded.value.usage
                   <==> Representable(flags, ops[j].decoded.value.usage)))
  {
    var s, op := Run(o, flags, ops[..j]), ops[j];
    var u := Uses(Run(o, flags, ops[..j + 1]).log)[i];
    FlagsKept(o, flags, ops[..j]);
    assert Serves(s, op) && u.Some? && AsAsked(s.hals[op.index], op.decoded.value, u.value);
    if ProducerUsage(producer) in u.value.settings && ConsumerUsage(consumer) in u.value.settings {
      DeviceReadsUsage(s.hals[op.index], op.decoded.value, u.value, producer, consumer);
    }
  }
}
