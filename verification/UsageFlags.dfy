/** The split of a BufferUsage into gralloc1 producer and consumer usages. Only bitwise
    operations are involved, so a usage is modelled as the set of its bit positions:
    `x & y` is intersection, `x | y` union and `x & ~y` difference. */
module UsageFlags {
  type Bits = set<nat>

  /** The flag values, which the Android headers define. */
  datatype Flags = Flags(
    readMask: Bits, readRarely: Bits, readOften: Bits,
    writeMask: Bits, writeRarely: Bits, writeOften: Bits,
    sensor: Bits, gpu: Bits,
    producerRead: Bits, producerReadOften: Bits,
    producerWrite: Bits, producerWriteOften: Bits,
    consumerRead: Bits, consumerReadOften: Bits, consumerGpu: Bits)
  {
    /** The masks do not overlap, and the enumerators of the two CPU fields are
        distinct nonzero values inside their masks. */
    predicate FieldsDistinct() {
      && readMask !! writeMask !! gpu !! sensor
      && gpu != {}
      && readRarely <= readMask && readOften <= readMask
      && readRarely != readOften && readRarely != {} && readOften != {}
      && writeRarely <= writeMask && writeOften <= writeMask
      && writeRarely != writeOften && writeRarely != {} && writeOften != {}
    }

    /** The gralloc1 encodings stay inside the bits that the split filters out,
        and within each field they can be told apart. */
    predicate CodesDistinct() {
      && producerRead <= readMask && producerReadOften <= readMask
      && producerRead != producerReadOften && producerRead != {} && producerReadOften != {}
      && producerWrite <= writeMask && producerWriteOften <= writeMask
      && producerWrite != producerWriteOften && producerWrite != {} && producerWriteOften != {}
      && consumerRead <= readMask && consumerReadOften <= readMask
      && consumerGpu <= gpu && consumerGpu != {}
    }
  }

  /** One switch over a CPU field: two values have a code, anything else adds no bits. */
  function Code(field: Bits, rarely: Bits, often: Bits, rarelyCode: Bits, oftenCode: Bits): Bits {
    if field == rarely then rarelyCode else if field == often then oftenCode else {}
  }

  function ToProducerUsage(f: Flags, usage: Bits): Bits {
    usage - (f.readMask + f.writeMask + f.gpu)
    + Code(usage * f.writeMask, f.writeRarely, f.writeOften, f.producerWrite, f.producerWriteOften)
    + Code(usage * f.readMask, f.readRarely, f.readOften, f.producerRead, f.producerReadOften)
  }

  function ToConsumerUsage(f: Flags, usage: Bits): Bits {
    usage - (f.readMask + f.writeMask + f.sensor + f.gpu)
    + Code(usage * f.readMask, f.readRarely, f.readOften, f.consumerRead, f.consumerReadOften)
    + (if usage * f.gpu != {} then f.consumerGpu else {})
  }

  predicate SamePair(f: Flags, u: Bits, v: Bits) {
    ToProducerUsage(f, u) == ToProducerUsage(f, v) && ToConsumerUsage(f, u) == ToConsumerUsage(f, v)
  }

  /** Reads the original usage back from a (producer, consumer) pair. */
  function Recover(f: Flags, producer: Bits, consumer: Bits): Bits {
    producer - (f.readMask + f.writeMask + f.gpu)
    + Code(producer * f.writeMask, f.producerWrite, f.producerWriteOften, f.writeRarely, f.writeOften)
    + Code(producer * f.readMask, f.producerRead, f.producerReadOften, f.readRarely, f.readOften)
    + (if consumer * f.gpu != {} then f.gpu else {})
  }

  /** Both CPU fields hold never, rarely or often, and the GPU field is all or nothing. */
  predicate Representable(f: Flags, usage: Bits) {
    && usage * f.readMask in {{}, f.readRarely, f.readOften}
    && usage * f.writeMask in {{}, f.writeRarely, f.writeOften}
    && usage * f.gpu in {{}, f.gpu}
  }

  /** Every bit outside the filtered masks survives in both halves, and no bit outside
      them is ever invented. */
  lemma OtherBitsPreserved(f: Flags, usage: Bits)
    requires f.FieldsDistinct() && f.CodesDistinct()
    ensures var filtered := f.readMask + f.writeMask + f.gpu;
            && ToProducerUsage(f, usage) - filtered == usage - filtered
            && ToConsumerUsage(f, usage) - filtered == usage - filtered - f.sensor
  {}

  /** The fields of the two halves, in terms of the fields of the usage: CPU fields are
      recoded, and GPU, write and sensor flags stay out of the half they do not belong to. */
  lemma SplitFields(f: Flags, usage: Bits)
    requires f.FieldsDistinct() && f.CodesDistinct()
    ensures var p, c := ToProducerUsage(f, usage), ToConsumerUsage(f, usage);
            var read, write := usage * f.readMask, usage * f.writeMask;
            && p * f.readMask == Code(read, f.readRarely, f.readOften, f.producerRead, f.producerReadOften)
            && p * f.writeMask == Code(write, f.writeRarely, f.writeOften, f.producerWrite, f.producerWriteOften)
            && p * f.gpu == {}
            && c * f.readMask == Code(read, f.readRarely, f.readOften, f.consumerRead, f.consumerReadOften)
            && c * f.gpu == (if usage * f.gpu != {} then f.consumerGpu else {})
            && c * f.writeMask == {} && c * f.sensor == {}
  {}

  /** Reading the pair back gives the usage exactly when it is representable. */
  lemma RecoverExactly(f: Flags, usage: Bits)
    requires f.FieldsDistinct() && f.CodesDistinct()
    ensures Recover(f, ToProducerUsage(f, usage), ToConsumerUsage(f, usage)) == usage
            <==> Representable(f, usage)
  {
    OtherBitsPreserved(f, usage);
    SplitFields(f, usage);
    var back := Recover(f, ToProducerUsage(f, usage), ToConsumerUsage(f, usage));
    assert usage == usage - (f.readMask + f.writeMask + f.gpu)
                    + usage * f.writeMask + usage * f.readMask + usage * f.gpu;
    var read, write := usage * f.readMask, usage * f.writeMask;
    assert back * f.readMask == if read in {f.readRarely, f.readOften} then read else {};
    assert back * f.writeMask == if write in {f.writeRarely, f.writeOften} then write else {};
    assert back * f.gpu == if usage * f.gpu != {} then f.gpu else {};
  }

  /** Every usage shares its pair with the representable one that is read back. */
  lemma SharesPair(f: Flags, usage: Bits)
    requires f.FieldsDistinct() && f.CodesDistinct()
    ensures var back := Recover(f, ToProducerUsage(f, usage), ToConsumerUsage(f, usage));
            Representable(f, back) && SamePair(f, usage, back)
  {
    OtherBitsPreserved(f, usage);
    SplitFields(f, usage);
    var filtered := f.readMask + f.writeMask + f.gpu;
    var back := Recover(f, ToProducerUsage(f, usage), ToConsumerUsage(f, usage));
    assert back - filtered == usage - filtered;
    var read, write := usage * f.readMask, usage * f.writeMask;
    assert back * f.readMask == if read in {f.readRarely, f.readOften} then read else {};
    assert back * f.writeMask == if write in {f.writeRarely, f.writeOften} then write else {};
    assert back * f.gpu == if usage * f.gpu != {} then f.gpu else {};
    assert back - filtered - f.sensor == usage - filtered - f.sensor;
    assert back - (filtered + f.sensor) == usage - (filtered + f.sensor);
  }

  /** Two representable usages with the same producer and consumer usages are equal. */
  lemma SplitInjective(f: Flags, u: Bits, v: Bits)
    requires f.FieldsDistinct() && f.CodesDistinct()
    requires Representable(f, u) && Representable(f, v)
    requires SamePair(f, u, v)
    ensures u == v
  {
    RecoverExactly(f, u);
    RecoverExactly(f, v);
  }
  /** A usage that is not representable cannot be read back at all: exactly then the split
      gives it the same pair as some other, representable, usage. */
  lemma LostIff(f: Flags, usage: Bits)
    requires f.FieldsDistinct() && f.CodesDistinct()
    ensures !Representable(f, usage)
            <==> exists other :: other != usage && Representable(f, other) && SamePair(f, usage, other)
  {
    if Representable(f, usage) {
      forall other | Representable(f, other) && SamePair(f, usage, other) ensures other == usage {
        SplitInjective(f, usage, other);
      }
    } else {
      RecoverExactly(f, usage);
      SharesPair(f, usage);
    }
  }
}
