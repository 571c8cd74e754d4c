/** AllocatorImpl over either HAL, and the loader that creates both. */
module AllocatorImpl {
  import opened Options
  import opened GrallocTypes
  import opened UsageFlags
  import opened GrallocBatch
  import opened GrallocSystem
  import opened GrallocDevice
  import opened Gralloc0HalImpl
  import opened Gralloc1HalImpl

  /** The virtual AllocatorHal: one contract, two implementations behind it. */
  datatype AllocatorHal = OnGralloc0(hal0: Gralloc0Hal) | OnGralloc1(hal1: Gralloc1Hal) {
    ghost function Implementation(): object {
      match this
      case OnGralloc0(h) => h
      case OnGralloc1(h) => h
    }

    function GetHardware(): Hardware {
      match this
      case OnGralloc0(h) => h.hardware
      case OnGralloc1(h) => h.hardware
    }

    function Decoder(): BufferDescriptor -> Option<Info> {
      match this
      case OnGralloc0(h) => h.decode
      case OnGralloc1(h) => h.decode
    }

    function GetDevice(): Option<DeviceId>
      reads Implementation()
    {
      match this
      case OnGralloc0(h) => h.mDevice
      case OnGralloc1(h) => h.mDevice
    }

    ghost predicate Ready()
      reads Implementation()
    {
      match this
      case OnGralloc0(h) => h.Ready()
      case OnGralloc1(h) => h.Ready()
    }

    ghost function View(): Hal
      requires Ready()
      reads Implementation()
    {
      match this
      case OnGralloc0(h) => h.View()
      case OnGralloc1(h) => h.View()
    }

    method AllocateBuffers(descriptor: BufferDescriptor, count: uint32) returns (error: Error, out: Option<Batch>)
      requires Ready()
      modifies GetHardware()
      ensures Ready() && View() == old(View())
      ensures GrallocBatch.AllocateBuffers(GetHardware().oracle, View(), old(GetHardware().log),
                                           Decoder()(descriptor), count)
              == BatchResult(error, out, GetHardware().log)
    {
      match this
      case OnGralloc0(h) => error, out := h.AllocateBuffers(descriptor, count);
      case OnGralloc1(h) => error, out := h.AllocateBuffers(descriptor, count);
    }

    method FreeBuffers(buffers: seq<Handle>)
      requires Ready()
      modifies GetHardware()
      ensures Ready() && View() == old(View())
      ensures GetHardware().log
              == GrallocBatch.FreeBuffers(GetHardware().oracle, View(), old(GetHardware().log), buffers)
    {
      match this
      case OnGralloc0(h) => h.FreeBuffers(buffers);
      case OnGralloc1(h) => h.FreeBuffers(buffers);
    }

    method Dispose()
      requires Ready()
      modifies Implementation(), GetHardware()
      ensures GetHardware().log == Then(old(GetHardware().log), old(View()).device, Close)
    {
      match this
      case OnGralloc0(h) => h.Dispose();
      case OnGralloc1(h) => h.Dispose();
    }
  }

  class Allocator {
    const mHal: AllocatorHal

    constructor (hal: AllocatorHal)
      ensures mHal == hal
    {
      mHal := hal;
    }

    /** The allocator owns a ready HAL that is `hal` in the model. */
    ghost predicate Owns(hardware: Hardware, decode: BufferDescriptor -> Option<Info>, hal: Hal)
      reads mHal.Implementation()
    {
      mHal.GetHardware() == hardware && mHal.Decoder() == decode && mHal.Ready() && mHal.View() == hal
    }

    /** Serves one request; the callback is a Reply event. */
    method Allocate(descriptor: BufferDescriptor, count: uint32)
      requires mHal.Ready()
      modifies mHal.GetHardware()
      ensures mHal.Ready() && mHal.View() == old(mHal.View())
      ensures var hardware := mHal.GetHardware();
              hardware.log == Serve(hardware.oracle, mHal.View(), old(hardware.log), mHal.Decoder()(descriptor), count)
    {
      var hardware, device := mHal.GetHardware(), mHal.GetDevice().GetOr(0);
      var error, out := mHal.AllocateBuffers(descriptor, count);
      if !error.NONE? {
        hardware.Record(device, Reply(error, 0, []));
        return;
      }
      hardware.Record(device, Reply(NONE, out.value.stride, out.value.buffers));
      mHal.FreeBuffers(out.value.buffers);
    }

    /** The destructor of the allocator destroys its HAL. */
    method Dispose()
      requires mHal.Ready()
      modifies mHal.Implementation(), mHal.GetHardware()
      ensures mHal.GetHardware().log == Then(old(mHal.GetHardware().log), old(mHal.View()).device, Close)
    {
      mHal.Dispose();
    }
  }

  /** GrallocLoader::createHal: a HAL whose initialisation failed is destroyed again. */
  method CreateHal(hardware: Hardware, flags: Flags, decode: BufferDescriptor -> Option<Info>, m: Module)
    returns (hal: Option<AllocatorHal>)
    modifies hardware
    ensures var l := Load(hardware.oracle, flags, Some(m), old(hardware.log));
            && hardware.log == l.log
            && (hal.Some? <==> l.hal.Some?)
            && (hal.Some? ==>
                  && fresh(hal.value.Implementation())
                  && hal.value.GetHardware() == hardware && hal.value.Decoder() == decode
                  && hal.value.Ready() && hal.value.View() == l.hal.value)
  {
    var major := MajorVersion(m);
    match major
    case 1 =>
      var hal1 := new Gralloc1Hal(hardware, flags, decode);
      var ok := hal1.InitWithModule(m);
      if ok {
        return Some(OnGralloc1(hal1));
      }
      hal1.Dispose();
      return None;
    case 0 =>
      var hal0 := new Gralloc0Hal(hardware, decode);
      var ok := hal0.InitWithModule(flags, m);
      if ok {
        return Some(OnGralloc0(hal0));
      }
      hal0.Dispose();
      return None;
    case _ =>
      return None;
  }

  /** GrallocLoader::load; `m` is None when the module cannot be found. */
  method LoadAllocator(hardware: Hardware, flags: Flags, decode: BufferDescriptor -> Option<Info>, m: Option<Module>)
    returns (allocator: Allocator?)
    modifies hardware
    ensures var l := Load(hardware.oracle, flags, m, old(hardware.log));
            && hardware.log == l.log
            && (allocator != null <==> l.hal.Some?)
            && (allocator != null ==>
                  && fresh(allocator) && fresh(allocator.mHal.Implementation())
                  && allocator.mHal.GetHardware() == hardware && allocator.mHal.Decoder() == decode
                  && allocator.mHal.Ready() && allocator.mHal.View() == l.hal.value)
  {
    if m.None? {
      return null;
    }
    var hal := CreateHal(hardware, flags, decode, m.value);
    if hal.None? {
      return null;
    }
    allocator := new Allocator(hal.value);
  }

  // ---------- whole runs ----------

  /** What a process can be asked to do with its allocators. */
  datatype Command =
    | Open(m: Option<Module>)
    | Allocate(index: nat, descriptor: BufferDescriptor, count: uint32)
    | Destroy(index: nat)

  function AsOp(decode: BufferDescriptor -> Option<Info>, c: Command): Op {
    match c
    case Open(m) => LoadModule(m)
    case Allocate(i, descriptor, count) => Request(i, decode(descriptor), count)
    case Destroy(i) => DestroyAllocator(i)
  }

  function AsOps(decode: BufferDescriptor -> Option<Info>, cs: seq<Command>): (ops: seq<Op>)
    ensures |ops| == |cs|
  {
    if cs == [] then [] else AsOps(decode, cs[..|cs| - 1]) + [AsOp(decode, cs[|cs| - 1])]
  }

  lemma AsOpsPrefix(decode: BufferDescriptor -> Option<Info>, cs: seq<Command>, i: nat)
    requires i < |cs|
    ensures AsOps(decode, cs[..i + 1]) == AsOps(decode, cs[..i]) + [AsOp(decode, cs[i])]
  {
    assert cs[..i + 1][..i] == cs[..i];
  }

  /** The process that hosts the allocators. */
  class Host {
    const hardware: Hardware
    const flags: Flags
    const decode: BufferDescriptor -> Option<Info>
    var allocators: seq<Allocator>
    ghost var Repr: set<object>  // the HAL objects created so far

    constructor (hardware: Hardware, flags: Flags, decode: BufferDescriptor -> Option<Info>)
      ensures this.hardware == hardware && this.flags == flags && this.decode == decode
      ensures allocators == [] && Repr == {}
    {
      this.hardware, this.flags, this.decode, allocators := hardware, flags, decode, [];
      Repr := {};
    }

    /** The allocators own these HALs; no two of them share one. */
    ghost predicate Hosts(hals: seq<Hal>)
      reads this, Repr
    {
      && this !in Repr && hardware !in Repr && |allocators| == |hals|
      && (forall i | 0 <= i < |allocators| ::
            allocators[i].mHal.Implementation() in Repr && allocators[i].Owns(hardware, decode, hals[i]))
      && (forall i, j | 0 <= i < j < |allocators| ::
            allocators[i].mHal.Implementation() != allocators[j].mHal.Implementation())
    }

    /** The state of the model that this object is in. */
    ghost predicate Represents(s: System)
      reads this, hardware, Repr
    {
      hardware.log == s.log && Hosts(s.hals)
    }

    method LoadOne(m: Option<Module>, ghost s: System)
      requires Represents(s)
      modifies this, hardware
      ensures Represents(Step(hardware.oracle, flags, s, LoadModule(m)))
      ensures fresh(Repr - old(Repr))
    {
      var a := LoadAllocator(hardware, flags, decode, m);
      if a != null {
        allocators := allocators + [a];
        Repr := Repr + {a.mHal.Implementation()};
      }
    }

    method ServeOne(index: nat, descriptor: BufferDescriptor, count: uint32, ghost s: System)
      requires Represents(s)
      modifies hardware
      ensures Represents(Step(hardware.oracle, flags, s, Request(index, decode(descriptor), count)))
    {
      if index < |allocators| {
        allocators[index].Allocate(descriptor, count);
      }
    }

    /** Erases the allocator at `index`, which its owner now destroys. */
    method Detach(index: nat, ghost hals: seq<Hal>) returns (a: Allocator)
      requires Hosts(hals) && index < |hals|
      modifies this`allocators
      ensures Hosts(hals[..index] + hals[index + 1..])
      ensures a.mHal.Implementation() in Repr && a.Owns(hardware, decode, hals[index])
      ensures forall i | 0 <= i < |allocators| :: allocators[i].mHal.Implementation() != a.mHal.Implementation()
    {
      a := allocators[index];
      ghost var had := allocators;
      allocators := allocators[..index] + allocators[index + 1..];
      assert forall i | 0 <= i < |allocators| :: allocators[i] == had[if i < index then i else i + 1];
    }

    method DestroyOne(index: nat, ghost s: System)
      requires Represents(s)
      modifies this, hardware, Repr
      ensures Represents(Step(hardware.oracle, flags, s, DestroyAllocator(index))) && Repr == old(Repr)
    {
      if index < |allocators| {
        var a := Detach(index, s.hals);
        a.Dispose();
      }
    }

    method ExecuteOne(command: Command, ghost s: System)
      requires Represents(s)
      modifies this, hardware, Repr
      ensures Represents(Step(hardware.oracle, flags, s, AsOp(decode, command)))
      ensures fresh(Repr - old(Repr))
    {
      match command {
        case Open(m) => LoadOne(m, s);
        case Allocate(index, descriptor, count) => ServeOne(index, descriptor, count, s);
        case Destroy(index) => DestroyOne(index, s);
      }
    }

    /** Any sequence of loads, requests and destructions, from the start: the log and the
        allocators alive are those of the run. */
    method Execute(commands: seq<Command>)
      requires allocators == [] && Repr == {} && hardware.log == Start
      modifies this, hardware
      ensures Represents(Run(hardware.oracle, flags, AsOps(decode, commands)))
    {
      var i := 0;
      while i < |commands|
        invariant 0 <= i <= |commands|
        invariant fresh(Repr)
        invariant Represents(Run(hardware.oracle, flags, AsOps(decode, commands[..i])))
      {
        AsOpsPrefix(decode, commands, i);
        ghost var before := AsOps(decode, commands[..i]);
        ghost var s := Run(hardware.oracle, flags, before);
        assert (before + [AsOp(decode, commands[i])])[..|before|] == before;
        ExecuteOne(commands[i], s);
        i := i + 1;
      }
      assert commands[..i] == commands;
    }
  }
}
