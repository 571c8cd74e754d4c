/** The device boundary as an object: every call passes the device pointer, appends to the log
    and answers what the oracle says. Calls that go through the dispatch table require their
    entry to be loaded. */
module GrallocDevice {
  import opened GrallocTypes
  import opened GrallocSystem

  type BufferDescriptor = seq<nat>

  class Hardware {
    const oracle: Oracle
    var log: Log

    constructor (oracle: Oracle)
      ensures this.oracle == oracle && log == Start
    {
      this.oracle, log := oracle, Start;
    }

    function Next(): Answer reads this { oracle.answers(log) }

    method Record(v: DeviceId, e: Event)
      modifies this
      ensures log == Then(old(log), v, e)
    {
      log := Then(log, v, e);
    }

    // ---------- ownership and discovery ----------

    method OpenDevice(m: Module) returns (result: int, v: DeviceId)
      modifies this
      ensures result == m.openResult && v == old(Next()).device && log == Then(old(log), v, Open(result))
    {
      result, v := m.openResult, Next().device;
      Record(v, Open(result));
    }

    method CloseDevice(v: DeviceId)
      modifies this
      ensures log == Then(old(log), v, Close)
    {
      Record(v, Close);
    }

    method CapabilityCount(m: Module) returns (count: nat)
      ensures count == m.capabilities.firstCount
    {
      count := m.capabilities.firstCount;
    }

    /** Overwrites a prefix of the buffer, never more than the buffer holds. */
    method FillCapabilities(m: Module, buffer: seq<int>) returns (filled: seq<int>, count: nat)
      ensures var w := m.capabilities.written;
              var k := if |w| <= |buffer| then |w| else |buffer|;
              filled == w[..k] + buffer[k..] && count == m.capabilities.secondCount
    {
      var w := m.capabilities.written;
      var k := if |w| <= |buffer| then |w| else |buffer|;
      filled, count := w[..k] + buffer[k..], m.capabilities.secondCount;
    }

    // ---------- gralloc1 ----------

    method CreateDescriptor(v: DeviceId, table: set<Function>) returns (error: DeviceError, descriptor: Descriptor)
      requires CREATE_DESCRIPTOR in table
      modifies this
      ensures error == old(Next()).error && descriptor == old(Next()).descriptor
      ensures log == Then(old(log), v, Create(error, descriptor))
    {
      error, descriptor := Next().error, Next().descriptor;
      Record(v, Create(error, descriptor));
    }

    function SetterOf(s: Setting): Function {
      match s
      case Dimensions(_, _) => SET_DIMENSIONS
      case Format(_) => SET_FORMAT
      case LayerCount(_) => SET_LAYER_COUNT
      case ProducerUsage(_) => SET_PRODUCER_USAGE
      case ConsumerUsage(_) => SET_CONSUMER_USAGE
    }

    method Configure(v: DeviceId, table: set<Function>, descriptor: Descriptor, setting: Setting)
      returns (error: DeviceError)
      requires SetterOf(setting) in table
      modifies this
      ensures error == old(Next()).error && log == Then(old(log), v, Set(descriptor, setting, error))
    {
      error := Next().error;
      Record(v, Set(descriptor, setting, error));
    }

    method DestroyDescriptor(v: DeviceId, table: set<Function>, descriptor: Descriptor)
      requires DESTROY_DESCRIPTOR in table
      modifies this
      ensures log == Then(old(log), v, Destroy(descriptor, old(Next()).error))
    {
      Record(v, Destroy(descriptor, Next().error));
    }

    method AllocateBuffer(v: DeviceId, table: set<Function>, descriptor: Descriptor)
      returns (error: DeviceError, buffer: Handle)
      requires ALLOCATE in table
      modifies this
      ensures error == old(Next()).error && buffer == old(Next()).buffer
      ensures log == Then(old(log), v, Allocate(descriptor, error, buffer))
    {
      error, buffer := Next().error, Next().buffer;
      Record(v, Allocate(descriptor, error, buffer));
    }

    method BufferStride(v: DeviceId, table: set<Function>, buffer: Handle) returns (error: DeviceError, stride: uint32)
      requires GET_STRIDE in table
      modifies this
      ensures error == old(Next()).error && stride == old(Next()).stride
      ensures log == Then(old(log), v, GetStride(buffer, error, stride))
    {
      error, stride := Next().error, Next().stride;
      Record(v, GetStride(buffer, error, stride));
    }

    method ReleaseBuffer(v: DeviceId, table: set<Function>, buffer: Handle) returns (error: DeviceError)
      requires RELEASE in table
      modifies this
      ensures error == old(Next()).error && log == Then(old(log), v, Release(buffer, error))
    {
      error := Next().error;
      Record(v, Release(buffer, error));
    }

    // ---------- gralloc0 ----------

    method AllocDirect(v: DeviceId, info: Info) returns (result: int, buffer: Handle, stride: int)
      modifies this
      ensures var a := old(Next()); result == a.result && buffer == a.buffer && stride == a.signedStride
      ensures log == Then(old(log), v, Alloc(info, result, buffer, stride))
    {
      result, buffer, stride := Next().result, Next().buffer, Next().signedStride;
      Record(v, Alloc(info, result, buffer, stride));
    }

    method FreeDirect(v: DeviceId, buffer: Handle) returns (result: int)
      modifies this
      ensures result == old(Next()).result && log == Then(old(log), v, Free(buffer, result))
    {
      result := Next().result;
      Record(v, Free(buffer, result));
    }
  }
}
