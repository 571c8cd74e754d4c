/** What a log says about ownership: per-handle and per-descriptor tallies, the
    configuration of every live descriptor, and the safety of each device call. */
module GrallocLedger {
  import opened Options
  import opened GrallocTypes

  /** A handle or a descriptor id means something on one device only. */
  datatype Key = Key(device: DeviceId, id: nat)

  // ---------- buffers ----------

  /** For one handle of one device: how often the device gave it out, how often it was told to take it
      back, and how many of those attempts it refused. */
  datatype Tally = Tally(obtained: nat, attempted: nat, refused: nat)

  predicate Obtains(e: Event) {
    || (e.Allocate? && (e.error.Success? || e.error.NotShared?))
    || (e.Alloc? && e.result == 0)
  }

  predicate GivesBack(e: Event) { e.Release? || e.Free? }

  predicate RefusesBack(e: Event) {
    (e.Release? && !e.error.Success?) || (e.Free? && e.result != 0)
  }

  function BufferStep(t: Tally, e: Event, h: Handle): Tally {
    if Obtains(e) && e.buffer == h then t.(obtained := t.obtained + 1)
    else if GivesBack(e) && e.buffer == h then
      Tally(t.obtained, t.attempted + 1, t.refused + if RefusesBack(e) then 1 else 0)
    else t
  }

  function BufferTally(log: Log, k: Key): (t: Tally)
    ensures t.refused <= t.attempted
  {
    if log.Start? then Tally(0, 0, 0)
    else if log.device != k.device then BufferTally(log.past, k)
    else BufferStep(BufferTally(log.past, k), log.event, k.id)
  }

  /** How often the device has given out the handle without accepting it back. A negative value
      would mean that a buffer was given back more often than it was obtained. */
  function Live(log: Log, k: Key): int {
    var t := BufferTally(log, k);
    t.obtained - (t.attempted - t.refused)
  }

  // ---------- the folding of NOT_SHARED into NONE ----------

  /** getStride calls answered with NOT_SHARED, which `toError` reports as NONE. */
  predicate FoldsStride(e: Event) { e.GetStride? && e.error.NotShared? }

  function FoldedStrides(log: Log): nat {
    if log.Start? then 0 else FoldedStrides(log.past) + if FoldsStride(log.event) then 1 else 0
  }

  /** Descriptor creations and setter calls answered with NOT_SHARED. */
  predicate FoldsSetup(e: Event) { (e.Create? || e.Set?) && e.error.NotShared? }

  function FoldedSetups(log: Log): nat {
    if log.Start? then 0 else FoldedSetups(log.past) + if FoldsSetup(log.event) then 1 else 0
  }

  // ---------- device ownership ----------

  predicate DeviceCall(e: Event) { !e.Open? && !e.Close? && !e.Reply? }

  /** The log without its device calls: opens, closes and replies. */
  function Outline(log: Log): Log {
    if log.Start? then Start
    else if DeviceCall(log.event) then Outline(log.past)
    else Then(Outline(log.past), log.device, log.event)
  }

  function OpenStep(e: Event): int {
    if e.Open? && e.result == 0 then 1 else if e.Close? then -1 else 0
  }

  function OpensLessCloses(outline: Log, v: DeviceId): int {
    if outline.Start? then 0 else
    OpensLessCloses(outline.past, v) + if outline.device == v then OpenStep(outline.event) else 0
  }

  /** Successful opens minus closes of the device `v`. */
  function OpenBalance(log: Log, v: DeviceId): int { OpensLessCloses(Outline(log), v) }

  /** The call is made on a device that is open, and a call that names a buffer names one
      that is live on that device; a reply shows only handles live on its device. */
  predicate SafeCall(log: Log, v: DeviceId, e: Event) {
    && (DeviceCall(e) || e.Close? ==> OpenBalance(log, v) > 0)
    && (e.Release? || e.Free? || e.GetStride? ==> Live(log, Key(v, e.buffer)) > 0)
    && (e.Reply? ==> forall i | 0 <= i < |e.handles| :: Live(log, Key(v, e.handles[i])) > 0)
  }

  predicate Safe(log: Log) {
    log.Start? || (Safe(log.past) && SafeCall(log.past, log.device, log.event))
  }

  predicate Distinct(hs: seq<Handle>) {
    forall i, j | 0 <= i < j < |hs| :: hs[i] != hs[j]
  }

  /** Every reply in the outline shows pairwise distinct handles. */
  predicate DistinctReplies(outline: Log) {
    outline.Start? || (DistinctReplies(outline.past) && (outline.event.Reply? ==> Distinct(outline.event.handles)))
  }

  /** A device that never hands out a handle that is still live. */
  ghost predicate FreshDevice(o: Oracle) {
    forall log, v: DeviceId :: Live(log, Key(v, o.answers(log).buffer)) <= 0
  }

  // ---------- descriptors ----------

  /** What has been set on a live descriptor, and whether its destruction was already
      attempted (and refused). */
  datatype Config = Config(settings: set<Setting>, doomed: bool)

  /** The history of one descriptor: its configuration while it is live, its successful
      creations, and the destroy calls made on it. */
  datatype Life = Life(config: Option<Config>, created: nat, destroyed: nat)

  function LifeStep(l: Life, e: Event, d: Descriptor): Life {
    match e
    case Create(error, x) =>
      if error.Success? && x == d then l.(config := Some(Config({}, false)), created := l.created + 1) else l
    case Set(x, s, error) =>
      if error.Success? && x == d && l.config.Some? then
        l.(config := Some(l.config.value.(settings := l.config.value.settings + {s})))
      else l
    case Destroy(x, error) =>
      if x != d then l
      else if error.Success? then l.(config := None, destroyed := l.destroyed + 1)
      else Life(if l.config.Some? then Some(l.config.value.(doomed := true)) else None, l.created, l.destroyed + 1)
    case _ => l
  }

  function LifeOf(log: Log, k: Key): Life {
    if log.Start? then Life(None, 0, 0)
    else if log.device != k.device then LifeOf(log.past, k)
    else LifeStep(LifeOf(log.past, k), log.event, k.id)
  }

  /** For every device allocate, in order, the configuration of the descriptor it was made
      on; None if that descriptor was not live. */
  function Uses(log: Log): seq<Option<Config>> {
    if log.Start? then [] else
    Uses(log.past)
    + if log.event.Allocate? then [LifeOf(log.past, Key(log.device, log.event.descriptor)).config] else []
  }
}
