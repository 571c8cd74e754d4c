/** Gralloc0HalImpl: the direct HAL. */
module Gralloc0HalImpl {
  import opened Options
  import opened GrallocTypes
  import opened UsageFlags
  import opened GrallocBatch
  import opened GrallocOutcome
  import opened GrallocSystem
  import opened GrallocDevice

  class Gralloc0Hal {
    const hardware: Hardware
    const decode: BufferDescriptor -> Option<Info>
    var mDevice: Option<DeviceId>

    ghost predicate Ready() reads this { mDevice.Some? }

    ghost function View(): Hal
      requires mDevice.Some?
      reads this
    {
      Gralloc0(mDevice.value)
    }

    constructor (hardware: Hardware, decode: BufferDescriptor -> Option<Info>)
      ensures this.hardware == hardware && this.decode == decode && mDevice == None
    {
      this.hardware, this.decode, mDevice := hardware, decode, None;
    }

    method InitWithModule(flags: Flags, m: Module) returns (ok: bool)
      requires mDevice == None && MajorVersion(m) == 0
      modifies this, hardware
      ensures var l := Load(hardware.oracle, flags, Some(m), old(hardware.log));
              && hardware.log == l.log
              && (ok <==> l.hal.Some?)
              && (ok ==> Ready() && View() == l.hal.value)
      ensures !ok ==> mDevice == None
    {
      var result, v := hardware.OpenDevice(m);
      if result != 0 {
        return false;
      }
      mDevice := Some(v);
      return true;
    }

    /** The destructor: closes the device if this HAL still owns one. */
    method Dispose()
      modifies this, hardware
      ensures mDevice == None
      ensures hardware.log
              == if old(mDevice).Some? then Then(old(hardware.log), old(mDevice).value, Close)
                 else old(hardware.log)
    {
      if mDevice.Some? {
        hardware.CloseDevice(mDevice.value);
      }
      mDevice := None;
    }

    /** `out` is None when the out-parameters are not written. */
    method AllocateOneBuffer(info: Info) returns (error: Error, out: Option<(Handle, uint32)>)
      requires Ready()
      modifies hardware
      ensures var r := AttemptDirect(hardware.oracle, mDevice.value, info, old(hardware.log));
              && hardware.log == r.log
              && (match r.attempt
                  case Failed(e) => error == e && out == None
                  case Got(buffer, stride) => error == NONE && out == Some((buffer, stride))
                  case Unassigned(_, _) => false)
    {
      if info.layerCount > 1 || exists bit | bit in info.usage :: bit >= 32 {
        return BAD_VALUE, None;
      }
      var result, buffer, stride := hardware.AllocDirect(mDevice.value, info);
      if result == 0 {
        return NONE, Some((buffer, ToUint32(stride)));
      } else if result == MINUS_EINVAL {
        return BAD_VALUE, None;
      } else {
        return NO_RESOURCES, None;
      }
    }

    method FreeBuffers(buffers: seq<Handle>)
      requires Ready()
      modifies hardware
      ensures hardware.log == GrallocBatch.FreeBuffers(hardware.oracle, View(), old(hardware.log), buffers)
    {
      var i := 0;
      while i < |buffers|
        invariant 0 <= i <= |buffers|
        invariant GrallocBatch.FreeBuffers(hardware.oracle, View(), hardware.log, buffers[i..])
                  == GrallocBatch.FreeBuffers(hardware.oracle, View(), old(hardware.log), buffers)
      {
        assert buffers[i..][1..] == buffers[i + 1..];
        var _ := hardware.FreeDirect(mDevice.value, buffers[i]);
        i := i + 1;
      }
    }

    /** `out` is None when *outStride and *outBuffers are not written. */
    method AllocateBuffers(descriptor: BufferDescriptor, count: uint32) returns (error: Error, out: Option<Batch>)
      requires Ready()
      modifies hardware
      ensures GrallocBatch.AllocateBuffers(hardware.oracle, View(), old(hardware.log), decode(descriptor), count)
              == BatchResult(error, out, hardware.log)
    {
      var decoded := decode(descriptor);
      if decoded.None? {
        return BAD_DESCRIPTOR, None;
      }
      error := NONE;
      var stride: uint32, buffers: seq<Handle> := 0, [];
      ghost var b, t := Direct(mDevice.value, decoded.value), hardware.log;
      ghost var made: seq<Attempt> := [];
      var i := 0;
      while i < count
        invariant 0 <= i == |made| <= count
        invariant error.NONE? && Acceptable(made) && PrefixesAcceptable(made)
        invariant stride == LastStride(made) && buffers == Handles(made)
        invariant Attempts(hardware.oracle, b, hardware.log, made, count) == Attempts(hardware.oracle, b, t, [], count)
      {
        ghost var attempt := AttemptOne(hardware.oracle, b, hardware.log).attempt;
        LoopStep(hardware.oracle, b, hardware.log, made, count);
        var tmp;
        error, tmp := AllocateOneBuffer(decoded.value);
        made := made + [attempt];
        if !error.NONE? {
          break;
        }
        var (tmpBuffer, tmpStride) := tmp.value;
        buffers := buffers + [tmpBuffer];
        if stride == 0 {
          stride := tmpStride;
        } else if stride != tmpStride {
          error := UNSUPPORTED;
          break;
        }
        i := i + 1;
      }
      assert Attempts(hardware.oracle, b, t, [], count) == Progress(made, hardware.log);
      assert error == Verdict(made) && buffers == Handles(made);

      if !error.NONE? {
        FreeBuffers(buffers);
        return error, None;
      }
      return NONE, Some(Batch(stride, buffers));
    }
  }
}
