/** Gralloc1HalImpl: the descriptor-based HAL. */
module Gralloc1HalImpl {
  import opened Options
  import opened GrallocTypes
  import opened UsageFlags
  import opened GrallocBatch
  import opened GrallocOutcome
  import opened GrallocSystem
  import opened GrallocDevice

  class Gralloc1Hal {
    const hardware: Hardware
    const flags: Flags
    const decode: BufferDescriptor -> Option<Info>
    var mDevice: Option<DeviceId>
    var layeredBuffers: bool
    var mDispatch: set<Function>

    /** The device is open and every dispatch entry that can be used is loaded. */
    ghost predicate Ready() reads this {
      mDevice.Some? && NeededFunctions(layeredBuffers) <= mDispatch
    }

    /** What distinguishes this HAL for the transaction it implements. */
    ghost function View(): Hal
      requires mDevice.Some?
      reads this
    {
      Gralloc1(mDevice.value, layeredBuffers, flags)
    }

    constructor (hardware: Hardware, flags: Flags, decode: BufferDescriptor -> Option<Info>)
      ensures this.hardware == hardware && this.flags == flags && this.decode == decode
      ensures mDevice == None && !layeredBuffers && mDispatch == {}
    {
      this.hardware, this.flags, this.decode := hardware, flags, decode;
      mDevice, layeredBuffers, mDispatch := None, false, {};
    }

    // ---------- initialisation and destruction ----------

    method InitCapabilities(m: Module)
      requires !layeredBuffers
      modifies this`layeredBuffers
      ensures layeredBuffers == (LAYERED_BUFFERS in Listed(m.capabilities))
    {
      var count := hardware.CapabilityCount(m);
      var capabilities := Zeros(count);
      capabilities, count := hardware.FillCapabilities(m, capabilities);
      capabilities := Resize(capabilities, count);
      assert capabilities == Listed(m.capabilities);
      var i := 0;
      while i < |capabilities|
        invariant 0 <= i <= |capabilities|
        invariant LAYERED_BUFFERS !in capabilities[..i]
        invariant !layeredBuffers
      {
        if capabilities[i] == LAYERED_BUFFERS {
          layeredBuffers := true;
          break;
        }
        i := i + 1;
      }
    }

    method LoadFunction(m: Module, f: Function) returns (ok: bool)
      modifies this`mDispatch
      ensures ok == (f in m.functions)
      ensures mDispatch == old(mDispatch) + if ok then {f} else {}
    {
      ok := f in m.functions;
      if ok {
        mDispatch := mDispatch + {f};
      }
    }

    method InitDispatch(m: Module) returns (ok: bool)
      modifies this`mDispatch
      ensures ok <==> NeededFunctions(layeredBuffers) <= m.functions
      ensures ok ==> mDispatch == old(mDispatch) + NeededFunctions(layeredBuffers)
    {
      ghost var offered, had := m.functions, mDispatch;
      ok := LoadFunction(m, DUMP);
      if ok { ok := LoadFunction(m, CREATE_DESCRIPTOR); }
      if ok { ok := LoadFunction(m, DESTROY_DESCRIPTOR); }
      if ok { ok := LoadFunction(m, SET_DIMENSIONS); }
      ghost var first := {DUMP, CREATE_DESCRIPTOR, DESTROY_DESCRIPTOR, SET_DIMENSIONS};
      assert (ok <==> first <= offered) && (ok ==> mDispatch == had + first);
      if ok { ok := LoadFunction(m, SET_FORMAT); }
      if ok { ok := LoadFunction(m, SET_CONSUMER_USAGE); }
      if ok { ok := LoadFunction(m, SET_PRODUCER_USAGE); }
      ghost var second := first + {SET_FORMAT, SET_CONSUMER_USAGE, SET_PRODUCER_USAGE};
      assert (ok <==> second <= offered) && (ok ==> mDispatch == had + second);
      if ok { ok := LoadFunction(m, GET_STRIDE); }
      if ok { ok := LoadFunction(m, ALLOCATE); }
      if ok { ok := LoadFunction(m, RELEASE); }
      assert REQUIRED == second + {GET_STRIDE, ALLOCATE, RELEASE};
      assert (ok <==> REQUIRED <= offered) && (ok ==> mDispatch == had + REQUIRED);
      if ok && layeredBuffers { ok := LoadFunction(m, SET_LAYER_COUNT); }
    }

    method InitWithModule(m: Module) returns (ok: bool)
      requires mDevice == None && !layeredBuffers && mDispatch == {}
      requires MajorVersion(m) == 1
      modifies this, hardware
      ensures var l := Load(hardware.oracle, flags, Some(m), old(hardware.log));
              && hardware.log == l.log
              && (ok <==> l.hal.Some?)
              && (ok ==> Ready() && View() == l.hal.value)
      ensures !ok ==> mDevice == None
    {
      var result, v := hardware.OpenDevice(m);
      if result != 0 {
        return false;
      }
      mDevice := Some(v);
      InitCapabilities(m);
      ok := InitDispatch(m);
      if !ok {
        hardware.CloseDevice(v);
        mDevice := None;
      }
    }

    /** The destructor: closes the device if this HAL still owns one. */
    method Dispose()
      modifies this, hardware
      ensures mDevice == None
      ensures hardware.log
              == if old(mDevice).Some? then Then(old(hardware.log), old(mDevice).value, Close)
                 else old(hardware.log)
    {
      if mDevice.Some? {
        hardware.CloseDevice(mDevice.value);
      }
      mDevice := None;
    }

    // ---------- descriptors ----------

    method CreateDescriptor(info: Info) returns (error: Error, outDescriptor: Option<Descriptor>)
      requires Ready()
      modifies hardware
      ensures GrallocBatch.CreateDescriptor(hardware.oracle, View(), old(hardware.log), info)
              == Setup(error, outDescriptor, hardware.log)
    {
      ghost var o, v := hardware.oracle, mDevice.value;
      ghost var settings, conclusion := Settings(View(), info), Conclusion(View(), info);
      var e, descriptor := hardware.CreateDescriptor(mDevice.value, mDispatch);
      ghost var c := Resume(o, v, e, hardware.log, descriptor, settings, conclusion);
      ghost var k := 0;  // setters called so far
      assert settings[0..] == settings;
      assert |settings| == if layeredBuffers then 5 else if info.layerCount > 1 then 2 else 4;
      if e.Success? {
        ResumeNext(o, v, hardware.log, descriptor, settings, 0, conclusion);
        e := hardware.Configure(mDevice.value, mDispatch, descriptor, Dimensions(info.width, info.height));
        k := 1;
      }
      assert c == Resume(o, v, e, hardware.log, descriptor, settings[k..], conclusion);
      if e.Success? {
        ResumeNext(o, v, hardware.log, descriptor, settings, 1, conclusion);
        e := hardware.Configure(mDevice.value, mDispatch, descriptor, Format(info.format));
        k := 2;
      }
      assert c == Resume(o, v, e, hardware.log, descriptor, settings[k..], conclusion);
      if e.Success? {
        if layeredBuffers {
          ResumeNext(o, v, hardware.log, descriptor, settings, 2, conclusion);
          e := hardware.Configure(mDevice.value, mDispatch, descriptor, LayerCount(info.layerCount));
          k := 3;
        } else if info.layerCount > 1 {
          e := Unsupported;
        }
      }
      assert c == Resume(o, v, e, hardware.log, descriptor, settings[k..], conclusion);
      if e.Success? {
        ResumeNext(o, v, hardware.log, descriptor, settings, k, conclusion);
        e := hardware.Configure(mDevice.value, mDispatch, descriptor,
                                ProducerUsage(ToProducerUsage(flags, info.usage)));
        k := k + 1;
      }
      assert c == Resume(o, v, e, hardware.log, descriptor, settings[k..], conclusion);
      if e.Success? {
        ResumeNext(o, v, hardware.log, descriptor, settings, k, conclusion);
        e := hardware.Configure(mDevice.value, mDispatch, descriptor,
                                ConsumerUsage(ToConsumerUsage(flags, info.usage)));
        k := k + 1;
      }
      assert c == Resume(o, v, e, hardware.log, descriptor, settings[k..], conclusion);
      assert e.Success? ==> settings[k..] == [];
      assert c == Configured(e, hardware.log);
      if e.Success? {
        outDescriptor := Some(descriptor);
      } else {
        hardware.DestroyDescriptor(mDevice.value, mDispatch, descriptor);
        outDescriptor := None;
      }
      error := ToError(e);
    }

    // ---------- buffers ----------

    /** `out` is None when the out-parameters are not written. */
    method AllocateOneBuffer(descriptor: Descriptor) returns (error: Error, out: Option<(Handle, uint32)>)
      requires Ready()
      modifies hardware
      ensures var r := AttemptDescribed(hardware.oracle, mDevice.value, descriptor, old(hardware.log));
              && hardware.log == r.log
              && (match r.attempt
                  case Failed(e) => error == e && out == None
                  case Got(buffer, stride) => error == NONE && out == Some((buffer, stride))
                  case Unassigned(_, _) => error == NONE && out == None)
    {
      var e, buffer := hardware.AllocateBuffer(mDevice.value, mDispatch, descriptor);
      if !e.Success? && !e.NotShared? {
        return ToError(e), None;
      }
      var stride;
      e, stride := hardware.BufferStride(mDevice.value, mDispatch, buffer);
      if !e.Success? && !e.Undefined? {
        var _ := hardware.ReleaseBuffer(mDevice.value, mDispatch, buffer);
        return ToError(e), None;
      }
      return NONE, Some((buffer, stride));
    }

    method FreeBuffers(buffers: seq<Handle>)
      requires Ready()
      modifies hardware
      ensures hardware.log == GrallocBatch.FreeBuffers(hardware.oracle, View(), old(hardware.log), buffers)
    {
      var i := 0;
      while i < |buffers|
        invariant 0 <= i <= |buffers|
        invariant GrallocBatch.FreeBuffers(hardware.oracle, View(), hardware.log, buffers[i..])
                  == GrallocBatch.FreeBuffers(hardware.oracle, View(), old(hardware.log), buffers)
      {
        assert buffers[i..][1..] == buffers[i + 1..];
        var _ := hardware.ReleaseBuffer(mDevice.value, mDispatch, buffers[i]);
        i := i + 1;
      }
    }

    /** The body of the allocation loop: allocate one more buffer, push it, and reconcile its
        stride; an error other than NONE ends the loop. */
    method AllocateNext(desc: Descriptor, stride: uint32, buffers: seq<Handle>,
                        ghost made: seq<Attempt>, ghost count: nat)
      returns (error: Error, newStride: uint32, newBuffers: seq<Handle>, ghost longer: seq<Attempt>)
      requires Ready() && |made| < count && PrefixesAcceptable(made) && Acceptable(made)
      requires stride == LastStride(made) && buffers == Handles(made)
      modifies hardware
      ensures |longer| == |made| + 1 && PrefixesAcceptable(longer) && newBuffers == Handles(longer)
      ensures var b := Described(mDevice.value, desc);
              var all := Attempts(hardware.oracle, b, old(hardware.log), made, count);
              if error.NONE?
              then Acceptable(longer) && newStride == LastStride(longer)
                   && all == Attempts(hardware.oracle, b, hardware.log, longer, count)
              else all == Progress(longer, hardware.log) && error == Verdict(longer)
    {
      ghost var b := Described(mDevice.value, desc);
      longer := made + [AttemptOne(hardware.oracle, b, hardware.log).attempt];
      LoopStep(hardware.oracle, b, hardware.log, made, count);
      newStride, newBuffers := stride, buffers;
      var out;
      error, out := AllocateOneBuffer(desc);
      if !error.NONE? {
        return;
      }
      var junk := hardware.oracle.locals(hardware.log);
      var (tmpBuffer, tmpStride) := out.GetOr((junk.buffer, junk.stride));
      newBuffers := buffers + [tmpBuffer];
      if stride == 0 {
        newStride := tmpStride;
      } else if stride != tmpStride {
        error := UNSUPPORTED;
      }
    }

    /** `out` is None when *outStride and *outBuffers are not written. */
    method AllocateBuffers(descriptor: BufferDescriptor, count: uint32) returns (error: Error, out: Option<Batch>)
      requires Ready()
      modifies hardware
      ensures GrallocBatch.AllocateBuffers(hardware.oracle, View(), old(hardware.log), decode(descriptor), count)
              == BatchResult(error, out, hardware.log)
    {
      var decoded := decode(descriptor);
      if decoded.None? {
        return BAD_DESCRIPTOR, None;
      }
      var written;
      error, written := CreateDescriptor(decoded.value);
      if !error.NONE? {
        return error, None;
      }
      var desc := written.GetOr(hardware.oracle.locals(hardware.log).descriptor);

      var stride: uint32, buffers: seq<Handle> := 0, [];
      ghost var b, t := Described(mDevice.value, desc), hardware.log;
      ghost var made: seq<Attempt> := [];
      var i := 0;
      while i < count
        invariant 0 <= i == |made| <= count
        invariant error.NONE? && Acceptable(made) && PrefixesAcceptable(made)
        invariant stride == LastStride(made) && buffers == Handles(made)
        invariant Attempts(hardware.oracle, b, hardware.log, made, count) == Attempts(hardware.oracle, b, t, [], count)
      {
        error, stride, buffers, made := AllocateNext(desc, stride, buffers, made, count);
        if !error.NONE? {
          break;
        }
        i := i + 1;
      }
      assert Attempts(hardware.oracle, b, t, [], count) == Progress(made, hardware.log);
      assert error == Verdict(made) && buffers == Handles(made);

      hardware.DestroyDescriptor(mDevice.value, mDispatch, desc);
      if !error.NONE? {
        FreeBuffers(buffers);
        return error, None;
      }
      return NONE, Some(Batch(stride, buffers));
    }
  }
}
