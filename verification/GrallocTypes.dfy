/** Values shared by the gralloc allocator modules: error codes, decoded buffer
    descriptors, the log of everything that happens at the device boundary, and
    the oracle that stands for an arbitrary, untrusted device. */
module GrallocTypes {
  import opened UsageFlags

  type uint32 = x: int | 0 <= x < 0x1_0000_0000

  /** The C conversion from a signed 32-bit integer (or any wider one) to uint32_t: the value
      is kept if it fits, and a negative one wraps around. */
  function ToUint32(x: int): (r: uint32)
    ensures 0 <= x < 0x1_0000_0000 ==> r == x
    ensures -0x1_0000_0000 <= x < 0 ==> r == x + 0x1_0000_0000
  {
    x % 0x1_0000_0000
  }

  /** The errors of IMapper 3.0 that the allocator reports to its client. */
  datatype Error = NONE | BAD_DESCRIPTOR | BAD_BUFFER | BAD_VALUE | NO_RESOURCES | UNSUPPORTED

  /** The error codes a gralloc1 device can answer with; any other integer is `Unlisted`. */
  datatype DeviceError =
    | Success | BadDescriptor | BadHandle | BadValue | NotShared | NoResources
    | Undefined | Unsupported | Unlisted(code: int)

  /** gralloc handles and descriptor ids are opaque tokens; 0 is the null handle. */
  type Handle = nat
  type Descriptor = nat

  /** The device pointer an open call wrote; every later call passes it along. */
  type DeviceId = nat

  /** The negated errno value -EINVAL that the gralloc0 path singles out. */
  const MINUS_EINVAL := -22

  /** A decoded BufferDescriptorInfo. */
  datatype Info = Info(width: uint32, height: uint32, layerCount: uint32, format: int, usage: Bits)

  /** One setter call on a gralloc1 descriptor, with its arguments. */
  datatype Setting =
    | Dimensions(width: uint32, height: uint32)
    | Format(format: int)
    | LayerCount(layers: uint32)
    | ProducerUsage(producer: Bits)
    | ConsumerUsage(consumer: Bits)

  /** Everything observable at the boundary of the allocator, with the answers received. */
  datatype Event =
    // gralloc1 device calls
    | Create(error: DeviceError, descriptor: Descriptor)
    | Set(descriptor: Descriptor, setting: Setting, error: DeviceError)
    | Allocate(descriptor: Descriptor, error: DeviceError, buffer: Handle)
    | GetStride(buffer: Handle, error: DeviceError, stride: uint32)
    | Release(buffer: Handle, error: DeviceError)
    | Destroy(descriptor: Descriptor, error: DeviceError)
    // gralloc0 device calls
    | Alloc(info: Info, result: int, buffer: Handle, signedStride: int)
    | Free(buffer: Handle, result: int)
    // device ownership
    | Open(result: int)
    | Close
    // the answer handed to the HIDL client
    | Reply(outcome: Error, replyStride: uint32, handles: seq<Handle>)

  /** Everything that has happened so far, in order, each event with the device it is about:
      the one called, or for a reply the one that served the request. */
  datatype Log = Start | Then(past: Log, device: DeviceId, event: Event)

  /** What the device answers to the next call. Out-values are the contents of the
      caller's variable after the call, whether or not the device wrote it. */
  datatype Answer = Answer(
    error: DeviceError, result: int, descriptor: Descriptor, buffer: Handle,
    stride: uint32, signedStride: int, device: DeviceId)

  /** What the uninitialised locals of the allocator code happen to hold. */
  datatype Locals = Locals(descriptor: Descriptor, buffer: Handle, stride: uint32)

  /** An arbitrary environment: the answer to a call is any function of all that
      happened before it. A statement about every oracle is a statement about every
      possible behaviour of the device. */
  datatype Oracle = Oracle(answers: Log -> Answer, locals: Log -> Locals)

  /** Gralloc1HalImpl::toError. */
  function ToError(error: DeviceError): (r: Error)
    ensures r.NONE? <==> error.Success? || error.NotShared?
    ensures r.BAD_DESCRIPTOR? <==> error.BadDescriptor?
    ensures r.BAD_BUFFER? <==> error.BadHandle?
    ensures r.BAD_VALUE? <==> error.BadValue?
    ensures r.NO_RESOURCES? <==> error.NoResources?
  {
    match error
    case Success => NONE
    case BadDescriptor => BAD_DESCRIPTOR
    case BadHandle => BAD_BUFFER
    case BadValue => BAD_VALUE
    case NotShared => NONE
    case NoResources => NO_RESOURCES
    case Undefined => UNSUPPORTED
    case Unsupported => UNSUPPORTED
    case Unlisted(_) => UNSUPPORTED
  }
}
