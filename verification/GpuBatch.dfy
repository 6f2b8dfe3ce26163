/**
 Staging of a GPU batch: blocks are scattered into one flat device buffer, compressed side by
 side, and gathered back from fixed-stride output regions. Device memory is a plain array whose
 old contents survive; allocation fails when the device has too little memory left, and a copy
 to a null device pointer fails.
 */
module GpuBatch {
  import opened Bytes
  import opened Common
  import opened Crc32Model
  import opened AsyncReader
  import opened Deflate
  import opened Assembler
  import opened Pipeline
  import PipelineSafety
  import PipelineRuns

  // ---- Layout -------------------------------------------------------------------------

  /** Where block `i` starts in the input buffer: the sizes before it, summed. */
  function Offset(ins: seq<seq<byte>>, i: nat): nat
    requires i <= |ins|
  {
    if i == 0 then 0 else Offset(ins, i - 1) + |ins[i - 1]|
  }

  function MaxSize(ins: seq<seq<byte>>): (m: nat)
    ensures forall i :: 0 <= i < |ins| ==> |ins[i]| <= m
  {
    if ins == [] then 0
    else
      var n := |ins| - 1;
      var m := MaxSize(ins[..n]);
      assert forall i :: 0 <= i < n ==> ins[i] == ins[..n][i];
      if m < |ins[n]| then |ins[n]| else m
  }

  /** Where the output of block `i` starts. */
  function Region(i: nat, stride: nat): nat {
    i * stride
  }

  lemma RegionStep(i: nat, stride: nat)
    ensures Region(i + 1, stride) == Region(i, stride) + stride
  {
  }

  lemma {:induction false} RegionsOrdered(i: nat, j: nat, stride: nat)
    requires i < j
    ensures Region(i, stride) + stride <= Region(j, stride)
    decreases j
  {
    hide Region;
    RegionStep(j - 1, stride);
    if i < j - 1 {
      RegionsOrdered(i, j - 1, stride);
    }
  }

  lemma {:induction false} OffsetOfPrefix(ins: seq<seq<byte>>, i: nat)
    requires i <= |ins|
    ensures Offset(ins, i) == |Concat(ins[..i])|
  {
    if i > 0 {
      OffsetOfPrefix(ins, i - 1);
      assert ins[..i][..i - 1] == ins[..i - 1];
    }
  }

  lemma NoOffset(ins: seq<seq<byte>>)
    ensures Offset(ins, 0) == 0
  {
  }

  lemma OffsetStep(ins: seq<seq<byte>>, i: nat)
    requires i < |ins|
    ensures Offset(ins, i + 1) == Offset(ins, i) + |ins[i]|
  {
  }

  lemma {:induction false} OffsetsOrdered(ins: seq<seq<byte>>, i: nat, j: nat)
    requires i <= j <= |ins|
    ensures Offset(ins, i) <= Offset(ins, j)
    decreases j
  {
    hide Offset;
    if i < j {
      OffsetsOrdered(ins, i, j - 1);
      OffsetStep(ins, j - 1);
    }
  }

  /** Block `i` of the flat buffer is the i-th block of the batch. */
  lemma {:induction false} SliceOfConcat(ins: seq<seq<byte>>, n: nat, i: nat)
    requires i < n <= |ins|
    ensures Offset(ins, i) + |ins[i]| <= Offset(ins, n) == |Concat(ins[..n])|
    ensures Concat(ins[..n])[Offset(ins, i)..Offset(ins, i) + |ins[i]|] == ins[i]
    decreases n
  {
    OffsetOfPrefix(ins, n);
    OffsetOfPrefix(ins, n - 1);
    var before := Concat(ins[..n - 1]);
    assert ins[..n][..n - 1] == ins[..n - 1];
    assert Concat(ins[..n]) == before + ins[n - 1];
    if i < n - 1 {
      SliceOfConcat(ins, n - 1, i);
      assert (before + ins[n - 1])[Offset(ins, i)..Offset(ins, i) + |ins[i]|]
             == before[Offset(ins, i)..Offset(ins, i) + |ins[i]|];
    }
  }

  /** The input regions tile the buffer: each position belongs to exactly one block. */
  lemma {:induction false} InputRegionsTile(ins: seq<seq<byte>>, n: nat, p: nat) returns (i: nat)
    requires n <= |ins| && p < Offset(ins, n)
    ensures i < n && Offset(ins, i) <= p < Offset(ins, i) + |ins[i]|
    ensures forall j :: 0 <= j < n && Offset(ins, j) <= p < Offset(ins, j) + |ins[j]| ==> j == i
    decreases n
  {
    hide Offset;
    NoOffset(ins);
    OffsetStep(ins, n - 1);
    if p < Offset(ins, n - 1) {
      i := InputRegionsTile(ins, n - 1, p);
    } else {
      i := n - 1;
      forall j | 0 <= j < n - 1
        ensures Offset(ins, j) + |ins[j]| <= Offset(ins, i)
      {
        OffsetStep(ins, j);
        OffsetsOrdered(ins, j + 1, i);
      }
    }
  }

  /** Device memory after a copy. */
  function Written(mem: seq<byte>, at: nat, src: seq<byte>): (r: seq<byte>)
    requires at + |src| <= |mem|
    ensures |r| == |mem|
  {
    mem[..at] + src + mem[at + |src|..]
  }

  lemma ScatterNext(mem: seq<byte>, ins: seq<seq<byte>>, i: nat)
    requires i < |ins| && Offset(ins, i + 1) <= |mem| && Offset(ins, i) + |ins[i]| == Offset(ins, i + 1)
    requires mem[..Offset(ins, i)] == Concat(ins[..i])
    ensures Written(mem, Offset(ins, i), ins[i])[..Offset(ins, i + 1)] == Concat(ins[..i + 1])
  {
    hide Offset;
    assert ins[..i + 1][..i] == ins[..i];
    assert Written(mem, Offset(ins, i), ins[i])[..Offset(ins, i + 1)] == mem[..Offset(ins, i)] + ins[i];
  }

  /** The first `n` streams sit at the start of their output regions. */
  ghost predicate Placed(mem: seq<byte>, stride: nat, streams: seq<seq<byte>>, n: nat)
    requires n <= |streams|
  {
    forall j :: 0 <= j < n ==>
      && Region(j, stride) + |streams[j]| <= |mem|
      && mem[Region(j, stride)..Region(j, stride) + |streams[j]|] == streams[j]
  }

  /** Regions are disjoint: filling one keeps those before it. */
  lemma PlaceNext(mem: seq<byte>, stride: nat, streams: seq<seq<byte>>, i: nat)
    requires i < |streams| && Region(i, stride) + stride <= |mem|
    requires forall j :: 0 <= j < |streams| ==> |streams[j]| <= stride
    requires Placed(mem, stride, streams, i)
    ensures Placed(Written(mem, Region(i, stride), streams[i]), stride, streams, i + 1)
  {
    hide Region;
    var mem' := Written(mem, Region(i, stride), streams[i]);
    forall j: nat | j < i
      ensures mem'[Region(j, stride)..Region(j, stride) + |streams[j]|] == streams[j]
    {
      RegionsOrdered(j, i, stride);
      assert mem'[Region(j, stride)..Region(j, stride) + |streams[j]|]
             == mem[Region(j, stride)..Region(j, stride) + |streams[j]|];
    }
  }

  lemma SliceOfPrefix(mem: seq<byte>, total: nat, lo: nat, hi: nat)
    requires lo <= hi <= total <= |mem|
    ensures mem[lo..hi] == mem[..total][lo..hi]
  {
  }

  lemma ChunkInPlace(ins: seq<seq<byte>>, mem: seq<byte>, total: nat, i: nat)
    requires total == Offset(ins, |ins|) <= |mem| && mem[..total] == Concat(ins) && i < |ins|
    ensures Offset(ins, i) + |ins[i]| <= total
    ensures mem[Offset(ins, i)..Offset(ins, i) + |ins[i]|] == ins[i]
  {
    hide Offset, Concat;
    assert ins[..|ins|] == ins;
    SliceOfConcat(ins, |ins|, i);
    SliceOfPrefix(mem, total, Offset(ins, i), Offset(ins, i) + |ins[i]|);
  }

  /** What the kernel finds at each offset. */
  lemma ChunksInPlace(ins: seq<seq<byte>>, mem: seq<byte>, total: nat)
    requires total == Offset(ins, |ins|) <= |mem| && mem[..total] == Concat(ins)
    ensures forall i :: 0 <= i < |ins| ==>
              Offset(ins, i) + |ins[i]| <= |mem| && mem[Offset(ins, i)..Offset(ins, i) + |ins[i]|] == ins[i]
  {
    hide Offset, Concat;
    forall i | 0 <= i < |ins|
      ensures Offset(ins, i) + |ins[i]| <= |mem| && mem[Offset(ins, i)..Offset(ins, i) + |ins[i]|] == ins[i]
    {
      ChunkInPlace(ins, mem, total, i);
    }
  }

  // ---- The codec --------------------------------------------------------------------------

  const SIZE_MISMATCH := Error(InvalidArgument, "compress_batch size mismatch")
  const OUT_OF_DEVICE_MEMORY := Error(CudaError, "cudaMalloc")
  const INVALID_DESTINATION := Error(CudaError, "cudaMemcpyAsync")

  const POINTER_BYTES: nat := 8
  const SIZE_BYTES: nat := 8
  const STATUS_BYTES: nat := 4

  /** What the batched compressor promises about its output sizes. */
  ghost predicate Bounded(deflate: Compressor, maxOutput: nat -> nat) {
    forall x: seq<byte>, n: nat :: |x| <= n ==> |deflate(x)| <= maxOutput(n)
  }

  /** A compressed block once its codec has filled in stream, size and checksum. */
  function Filled(b: CompressedBlock, source: seq<byte>, stream: seq<byte>): CompressedBlock {
    ComputeBound(source);
    b.(bytes := stream, uncompressed := |source|, crc32 := Compute(source))
  }

  /** What a caller finds in an output of a batch: the stream of its input, the checksum and size of that
      input, and the place in the file it had before. */
  ghost predicate Encodes(after: CompressedBlock, before: CompressedBlock, source: seq<byte>, stream: seq<byte>) {
    && after.bytes == stream && after.crc32 == Compute(source) && after.uncompressed == |source|
    && after.index == before.index && after.isLast == before.isLast && after.offset == before.offset
  }

  lemma FilledEncodes(b: CompressedBlock, source: seq<byte>, stream: seq<byte>)
    ensures Encodes(Filled(b, source, stream), b, source, stream)
  {
  }

  /** An output prepared for a file block is filled in as the CPU codec would have returned it. */
  lemma EncodedIsCompressed(after: CompressedBlock, before: CompressedBlock, block: FileBlock, stream: seq<byte>)
    requires Encodes(after, before, block.data, stream)
    requires before.index == block.index && before.isLast == block.isLast && before.offset == block.offset
    ensures after == CompressBlock(block, stream)
  {
  }

  method Copy(dst: array<byte>, at: nat, src: seq<byte>)
    requires at + |src| <= dst.Length
    modifies dst
    ensures dst[..] == Written(old(dst[..]), at, src)
  {
    forall k | 0 <= k < |src| {
      dst[at + k] := src[k];
    }
  }

  /** The host-side arrays of the batch: sizes, prefix sums, total and largest size. */
  method Plan(ins: seq<seq<byte>>) returns (sizes: seq<nat>, offsets: seq<nat>, total: nat, maxChunk: nat)
    ensures |sizes| == |offsets| == |ins|
    ensures forall i :: 0 <= i < |ins| ==> sizes[i] == |ins[i]| && offsets[i] == Offset(ins, i)
    ensures total == Offset(ins, |ins|) && maxChunk == MaxSize(ins)
  {
    hide Offset;
    sizes, offsets, total, maxChunk := [], [], 0, 0;
    NoOffset(ins);
    for i := 0 to |ins|
      invariant |sizes| == |offsets| == i
      invariant forall j :: 0 <= j < i ==> sizes[j] == |ins[j]| && offsets[j] == Offset(ins, j)
      invariant total == Offset(ins, i) && maxChunk == MaxSize(ins[..i])
    {
      sizes, offsets := sizes + [|ins[i]|], offsets + [total];
      OffsetStep(ins, i);
      total := total + |ins[i]|;
      maxChunk := if maxChunk < |ins[i]| then |ins[i]| else maxChunk;
      assert ins[..i + 1][..i] == ins[..i];
    }
    assert ins[..|ins|] == ins;
  }

  /** The host-to-device copies. */
  method Scatter(ins: seq<seq<byte>>, offsets: seq<nat>, input: array<byte>)
    requires |offsets| == |ins| && Offset(ins, |ins|) <= input.Length
    requires forall i :: 0 <= i < |ins| ==> offsets[i] == Offset(ins, i)
    modifies input
    ensures input[..Offset(ins, |ins|)] == Concat(ins)
  {
    hide Offset;
    NoOffset(ins);
    for i := 0 to |ins|
      invariant Offset(ins, i) <= input.Length && input[..][..Offset(ins, i)] == Concat(ins[..i])
    {
      OffsetsOrdered(ins, i + 1, |ins|);
      OffsetStep(ins, i);
      ScatterNext(input[..], ins, i);
      Copy(input, offsets[i], ins[i]);
    }
    assert ins[..|ins|] == ins;
  }

  /** The batched compressor, by its contract: it reads chunk `i` where the metadata says, writes its
      stream where `outPtrs[i]` says, and reports the stream's size. */
  method RunKernel(deflate: Compressor, input: array<byte>, offsets: seq<nat>, sizes: seq<nat>, outPtrs: seq<nat>,
                   output: array<byte>, stride: nat, ghost streams: seq<seq<byte>>)
    returns (outSizes: seq<nat>)
    requires input != output && |sizes| == |offsets| == |outPtrs| == |streams|
             && Region(|sizes|, stride) <= output.Length
    requires forall i :: 0 <= i < |sizes| ==>
               && outPtrs[i] == Region(i, stride)
               && offsets[i] + sizes[i] <= input.Length
               && streams[i] == deflate(input[offsets[i]..offsets[i] + sizes[i]])
               && |streams[i]| <= stride
    modifies output
    ensures |outSizes| == |sizes| && forall i :: 0 <= i < |sizes| ==> outSizes[i] == |streams[i]|
    ensures Placed(output[..], stride, streams, |streams|)
  {
    hide Region, Placed;
    outSizes := [];
    NothingPlaced(output[..], stride, streams);
    for i := 0 to |sizes|
      invariant |outSizes| == i && forall j :: 0 <= j < i ==> outSizes[j] == |streams[j]|
      invariant Placed(output[..], stride, streams, i)
    {
      RegionsOrdered(i, |sizes|, stride);
      var stream := deflate(input[offsets[i]..offsets[i] + sizes[i]]);
      PlaceNext(output[..], stride, streams, i);
      Copy(output, outPtrs[i], stream);
      outSizes := outSizes + [|stream|];
    }
  }

  lemma NothingPlaced(mem: seq<byte>, stride: nat, streams: seq<seq<byte>>)
    ensures Placed(mem, stride, streams, 0)
  {
  }

  /** The device-to-host copies. */
  method Gather(ins: seq<seq<byte>>, output: array<byte>, stride: nat, outSizes: seq<nat>, out: array<CompressedBlock>,
                ghost streams: seq<seq<byte>>)
    requires |ins| == |outSizes| == |streams| == out.Length && Placed(output[..], stride, streams, |streams|)
    requires forall i :: 0 <= i < |ins| ==> outSizes[i] == |streams[i]|
    modifies out
    ensures forall i :: 0 <= i < |ins| ==> out[i] == Filled(old(out[i]), ins[i], streams[i])
  {
    hide Region, Filled;
    ghost var mem := output[..];
    for i := 0 to |ins|
      invariant forall j :: 0 <= j < i ==> out[j] == Filled(old(out[j]), ins[j], streams[j])
      invariant forall j :: i <= j < |ins| ==> out[j] == old(out[j])
      invariant output[..] == mem
    {
      var at := Region(i, stride);
      assert output[at..at + outSizes[i]] == mem[at..at + outSizes[i]];
      out[i] := Filled(out[i], ins[i], output[at..at + outSizes[i]]);
    }
  }

  /** Copy metadata to the device: a null or too small destination is an error. */
  method PushArray(dst: array?<nat>, src: seq<nat>) returns (ok: bool)
    modifies dst
    ensures ok <==> dst != null && |src| <= dst.Length
    ensures ok ==> dst[..|src|] == src
  {
    if dst == null || |src| > dst.Length {
      return false;
    }
    forall k | 0 <= k < |src| {
      dst[k] := src[k];
    }
    ok := true;
  }

  /** What a buffer of this capacity has to gain. */
  function Grow(capacity: nat, needed: nat): nat {
    if needed > capacity then needed - capacity else 0
  }

  /** The device memory of one slot. `metaCapacity` is in bytes and shared by the five metadata arrays. */
  class Slot {
    var input: array<byte>
    var output: array<byte>
    var scratch: array<byte>
    var inPtrs: array?<nat>
    var inSizes: array?<nat>
    var outPtrs: array?<nat>
    var outSizes: array?<nat>
    var statuses: array?<nat>
    var metaCapacity: nat

    /** No device memory yet. */
    constructor ()
      ensures Sound() && NoMetadata() && inPtrs == null
      ensures input.Length == output.Length == scratch.Length == metaCapacity == 0
      ensures fresh(input) && fresh(output) && fresh(scratch)
    {
      input, output, scratch := new byte[0], new byte[0], new byte[0];
      inPtrs, inSizes, outPtrs, outSizes, statuses, metaCapacity := null, null, null, null, null, 0;
    }

    /** The arrays are separate allocations, and the shared capacity is that of the pointer array. */
    ghost predicate Sound()
      reads this
    {
      && input != output && scratch != input && scratch != output
      && metaCapacity == (if inPtrs == null then 0 else POINTER_BYTES * inPtrs.Length)
      && (inPtrs != null ==> inPtrs != inSizes && inPtrs != outPtrs && inPtrs != outSizes)
      && (inSizes != null ==> inSizes != outPtrs && inSizes != outSizes)
      && (outPtrs != null ==> outPtrs != outSizes)
    }

    ghost function Bytes(): nat
      reads this
    {
      input.Length + output.Length + scratch.Length + metaCapacity
    }

    predicate NoMetadata()
      reads this
    {
      inSizes == null && outPtrs == null && outSizes == null && statuses == null
    }

    /** The three arrays the batch copies to, besides the pointer array, are there with room for `n`. */
    predicate HasMetadata(n: nat)
      reads this
    {
      && inSizes != null && n <= inSizes.Length
      && outPtrs != null && n <= outPtrs.Length
      && outSizes != null && n <= outSizes.Length
    }
  }

  class NvcompDeflateCodec {
    const slots: seq<Slot>
    const deflate: Compressor
    const maxOutput: nat -> nat
    const scratchSize: (nat, nat) -> nat
    var nextSlot: nat
    var freeBytes: nat       // device memory not handed out

    ghost predicate Valid()
      reads this, slots
    {
      && nextSlot < |slots|
      && (forall s :: s in slots ==> s.Sound())
      && Bounded(deflate, maxOutput)
    }

    /** No slot has the metadata arrays a batch needs. */
    ghost predicate Bare()
      reads this, slots
    {
      forall s :: s in slots ==> s.NoMetadata()
    }

    constructor (slots: seq<Slot>, deviceBytes: nat, deflate: Compressor, maxOutput: nat -> nat,
                 scratchSize: (nat, nat) -> nat)
      requires slots != [] && forall s :: s in slots ==> s.Sound()
      requires Bounded(deflate, maxOutput)
      ensures Valid() && this.slots == slots && this.deflate == deflate
      ensures this.maxOutput == maxOutput && this.scratchSize == scratchSize
      ensures freeBytes == deviceBytes && nextSlot == 0
    {
      this.slots, this.deflate, this.maxOutput, this.scratchSize := slots, deflate, maxOutput, scratchSize;
      freeBytes, nextSlot := deviceBytes, 0;
    }

    /** `ensure_capacity`: keep a large enough buffer, contents and all; otherwise free it, then allocate. */
    method EnsureCapacity(buffer: array<byte>, needed: nat) returns (ok: bool, result: array<byte>)
      modifies this`freeBytes
      ensures ok <==> Grow(buffer.Length, needed) <= old(freeBytes)
      ensures if buffer.Length >= needed then result == buffer else fresh(result)
      ensures result.Length == if buffer.Length >= needed then buffer.Length else if ok then needed else 0
      ensures freeBytes + result.Length == old(freeBytes) + buffer.Length
    {
      if buffer.Length >= needed {
        return true, buffer;
      }
      freeBytes := freeBytes + buffer.Length;
      if needed > freeBytes {
        return false, new byte[0];
      }
      freeBytes := freeBytes - needed;
      ok, result := true, new byte[needed];
    }

    /** `ensure_typed`: the same for an array of elements; the capacity passed in decides, whatever the
        pointer is. */
    method EnsureTyped(ptr: array?<nat>, capacity: nat, count: nat, elementBytes: nat)
      returns (ok: bool, result: array?<nat>, newCapacity: nat)
      modifies this`freeBytes
      ensures capacity >= count * elementBytes ==>
                ok && result == ptr && newCapacity == capacity && freeBytes == old(freeBytes)
      ensures capacity < count * elementBytes ==>
                && (ok <==> count * elementBytes <= old(freeBytes) + if ptr == null then 0 else capacity)
                && (if ok then result != null && fresh(result) && result.Length == count
                           && newCapacity == count * elementBytes
                    else result == null && newCapacity == 0)
                && freeBytes + newCapacity == old(freeBytes) + if ptr == null then 0 else capacity
    {
      var needed := count * elementBytes;
      if capacity >= needed {
        return true, ptr, capacity;
      }
      freeBytes := freeBytes + if ptr == null then 0 else capacity;
      if needed > freeBytes {
        return false, null, 0;
      }
      freeBytes := freeBytes - needed;
      ok, result, newCapacity := true, new nat[count], needed;
    }

    /** All that a batch wants from the device: staging, scratch and the one array the shared capacity
        speaks for. The growths are the sizes less what the slot has already. */
    predicate Fits(ins: seq<seq<byte>>)
      requires nextSlot < |slots|
      reads this, slots
    {
      var slot, n, largest := slots[nextSlot], |ins|, MaxSize(ins);
      Grow(slot.input.Length, Offset(ins, n)) + Grow(slot.output.Length, Region(n, maxOutput(largest)))
      + Grow(slot.scratch.Length, scratchSize(n, largest)) + Grow(slot.metaCapacity, POINTER_BYTES * n) <= freeBytes
    }

    /** Bring the three buffers of a slot to size; a failed allocation leaves that buffer released. */
    method ReserveBuffers(slot: Slot, total: nat, outBytes: nat, scratchBytes: nat) returns (ok: bool)
      requires slot.Sound()
      modifies this`freeBytes, slot`input, slot`output, slot`scratch
      ensures slot.Sound()
      ensures ok ==> total <= slot.input.Length && outBytes <= slot.output.Length
      ensures ok <==> old(Grow(slot.input.Length, total) + Grow(slot.output.Length, outBytes)
                          + Grow(slot.scratch.Length, scratchBytes) <= freeBytes)
      ensures ok ==> freeBytes == old(freeBytes - Grow(slot.input.Length, total) - Grow(slot.output.Length, outBytes)
                                      - Grow(slot.scratch.Length, scratchBytes))
      ensures slot.input == old(slot.input) || fresh(slot.input)
      ensures slot.output == old(slot.output) || fresh(slot.output)
      ensures freeBytes + slot.Bytes() == old(freeBytes + slot.Bytes())
    {
      var buffer;
      ok, buffer := EnsureCapacity(slot.input, total);
      slot.input := buffer;
      if !ok {
        return;
      }
      ok, buffer := EnsureCapacity(slot.output, outBytes);
      slot.output := buffer;
      if !ok {
        return;
      }
      ok, buffer := EnsureCapacity(slot.scratch, scratchBytes);
      slot.scratch := buffer;
    }

    /** The other four metadata arrays: the capacity left by the first covers them, so none of them is
        ever allocated. */
    method KeepOtherArrays(slot: Slot, n: nat)
      requires POINTER_BYTES * n <= slot.metaCapacity
      modifies this`freeBytes, slot`inSizes, slot`outPtrs, slot`outSizes, slot`statuses
      ensures slot.inSizes == old(slot.inSizes) && slot.outPtrs == old(slot.outPtrs)
      ensures slot.outSizes == old(slot.outSizes) && slot.statuses == old(slot.statuses)
      ensures freeBytes == old(freeBytes)
    {
      var ok, ptr, capacity := EnsureTyped(slot.inSizes, slot.metaCapacity, n, SIZE_BYTES);
      slot.inSizes := ptr;
      ok, ptr, capacity := EnsureTyped(slot.outPtrs, slot.metaCapacity, n, POINTER_BYTES);
      slot.outPtrs := ptr;
      ok, ptr, capacity := EnsureTyped(slot.outSizes, slot.metaCapacity, n, SIZE_BYTES);
      slot.outSizes := ptr;
      ok, ptr, capacity := EnsureTyped(slot.statuses, slot.metaCapacity, n, STATUS_BYTES);
      slot.statuses := ptr;
    }

    method ReserveMetadata(slot: Slot, n: nat) returns (ok: bool)
      requires slot.Sound()
      modifies this`freeBytes, slot`inPtrs, slot`inSizes, slot`outPtrs, slot`outSizes, slot`statuses, slot`metaCapacity
      ensures slot.Sound()
      ensures slot.inSizes == old(slot.inSizes) && slot.outPtrs == old(slot.outPtrs)
      ensures slot.outSizes == old(slot.outSizes) && slot.statuses == old(slot.statuses)
      ensures ok <==> old(Grow(slot.metaCapacity, POINTER_BYTES * n) <= freeBytes)
      ensures ok && n > 0 ==> slot.inPtrs != null && n <= slot.inPtrs.Length
      ensures slot.inPtrs == old(slot.inPtrs) || slot.inPtrs == null || fresh(slot.inPtrs)
      ensures freeBytes + slot.Bytes() == old(freeBytes + slot.Bytes())
    {
      var ptr, capacity;
      ok, ptr, capacity := EnsureTyped(slot.inPtrs, slot.metaCapacity, n, POINTER_BYTES);
      slot.inPtrs, slot.metaCapacity := ptr, capacity;
      if ok {
        KeepOtherArrays(slot, n);
      }
    }

    /** Everything the batch wants from the device. */
    method Reserve(slot: Slot, n: nat, total: nat, outBytes: nat, scratchBytes: nat) returns (ok: bool)
      requires slot.Sound()
      modifies this`freeBytes, slot
      ensures slot.Sound()
      ensures slot.inSizes == old(slot.inSizes) && slot.outPtrs == old(slot.outPtrs)
      ensures slot.outSizes == old(slot.outSizes) && slot.statuses == old(slot.statuses)
      ensures ok <==> old(Grow(slot.input.Length, total) + Grow(slot.output.Length, outBytes)
                          + Grow(slot.scratch.Length, scratchBytes) + Grow(slot.metaCapacity, POINTER_BYTES * n)
                          <= freeBytes)
      ensures ok ==> total <= slot.input.Length && outBytes <= slot.output.Length
      ensures ok && n > 0 ==> slot.inPtrs != null && n <= slot.inPtrs.Length
      ensures slot.input == old(slot.input) || fresh(slot.input)
      ensures slot.output == old(slot.output) || fresh(slot.output)
      ensures slot.inPtrs == old(slot.inPtrs) || slot.inPtrs == null || fresh(slot.inPtrs)
      ensures freeBytes + slot.Bytes() == old(freeBytes + slot.Bytes())
    {
      ok := ReserveBuffers(slot, total, outBytes, scratchBytes);
      if ok {
        ok := ReserveMetadata(slot, n);
      }
    }

    /** The four metadata copies, in order. */
    method PushMetadata(slot: Slot, offsets: seq<nat>, sizes: seq<nat>, outPtrs: seq<nat>, stride: nat)
      returns (ok: bool)
      requires slot.Sound() && |offsets| == |sizes| == |outPtrs|
      requires slot.inPtrs != null && |offsets| <= slot.inPtrs.Length
      modifies slot.inPtrs, slot.inSizes, slot.outPtrs, slot.outSizes
      ensures ok <==> slot.HasMetadata(|offsets|)
      ensures ok ==> slot.inPtrs[..|offsets|] == offsets && slot.inSizes[..|sizes|] == sizes
      ensures ok ==> slot.outPtrs[..|outPtrs|] == outPtrs
    {
      ok := PushArray(slot.inPtrs, offsets);
      ok := PushArray(slot.inSizes, sizes);
      if !ok {
        return;
      }
      ok := PushArray(slot.outPtrs, outPtrs);
      if !ok {
        return;
      }
      ok := PushArray(slot.outSizes, seq(|sizes|, _ => stride));
    }

    /** Scatter, push the metadata, compress, gather. */
    method RunBatch(slot: Slot, ins: seq<seq<byte>>, sizes: seq<nat>, offsets: seq<nat>, total: nat, stride: nat,
                    out: array<CompressedBlock>)
      returns (ok: bool)
      requires |ins| == |sizes| == |offsets| == out.Length && slot.Sound()
      requires slot.inPtrs != null && |ins| <= slot.inPtrs.Length
      requires forall i :: 0 <= i < |ins| ==> sizes[i] == |ins[i]| && offsets[i] == Offset(ins, i)
      requires total == Offset(ins, |ins|) <= slot.input.Length && Region(|ins|, stride) <= slot.output.Length
      requires forall i :: 0 <= i < |ins| ==> |deflate(ins[i])| <= stride
      modifies slot.input, slot.output, slot.inPtrs, slot.inSizes, slot.outPtrs, slot.outSizes, out
      ensures ok <==> slot.HasMetadata(|ins|)
      ensures ok ==> forall i :: 0 <= i < |ins| ==> out[i] == Filled(old(out[i]), ins[i], deflate(ins[i]))
      ensures !ok ==> forall i :: 0 <= i < |ins| ==> out[i] == old(out[i])
    {
      hide Offset, Region, Filled, Placed;
      Scatter(ins, offsets, slot.input);
      var n := |ins|;
      var outPtrs := seq(n, i requires 0 <= i < n => Region(i, stride));
      ok := PushMetadata(slot, offsets, sizes, outPtrs, stride);
      if ok {
        Launch(slot, ins, slot.inSizes[..n], slot.inPtrs[..n], slot.outPtrs[..n], total, stride, out);
      }
    }

    /** The kernel runs on what the device arrays hold; the sizes come back through the last of them. */
    method Launch(slot: Slot, ins: seq<seq<byte>>, sizes: seq<nat>, offsets: seq<nat>, outPtrs: seq<nat>, total: nat,
                  stride: nat, out: array<CompressedBlock>)
      requires |ins| == |sizes| == |offsets| == |outPtrs| == out.Length && slot.input != slot.output
      requires slot.outSizes != null && |ins| <= slot.outSizes.Length
      requires forall i :: 0 <= i < |ins| ==>
                 sizes[i] == |ins[i]| && offsets[i] == Offset(ins, i) && outPtrs[i] == Region(i, stride)
      requires total == Offset(ins, |ins|) <= slot.input.Length && Region(|ins|, stride) <= slot.output.Length
      requires slot.input[..total] == Concat(ins) && forall i :: 0 <= i < |ins| ==> |deflate(ins[i])| <= stride
      modifies slot.output, slot.outSizes, out
      ensures forall i :: 0 <= i < |ins| ==> out[i] == Filled(old(out[i]), ins[i], deflate(ins[i]))
    {
      hide Offset, Region, Filled, Placed;
      ghost var streams := Compressed(deflate, ins);
      ghost var mem := slot.input[..];
      ChunksInPlace(ins, mem, total);
      forall i | 0 <= i < |ins|
        ensures offsets[i] + sizes[i] <= slot.input.Length && slot.input[offsets[i]..offsets[i] + sizes[i]] == ins[i]
      {
        assert slot.input[offsets[i]..offsets[i] + sizes[i]] == mem[offsets[i]..offsets[i] + sizes[i]];
      }
      var outSizes := RunKernel(deflate, slot.input, offsets, sizes, outPtrs, slot.output, stride, streams);
      var _ := PushArray(slot.outSizes, outSizes);
      Gather(ins, slot.output, stride, slot.outSizes[..|ins|], out, streams);
    }

    /** A planned, non-empty batch on one slot. */
    method Perform(slot: Slot, ins: seq<seq<byte>>, sizes: seq<nat>, offsets: seq<nat>, total: nat, stride: nat,
                   scratchBytes: nat, out: array<CompressedBlock>)
      returns (r: Outcome)
      requires 0 < |ins| == |sizes| == |offsets| == out.Length && slot.Sound()
      requires total == Offset(ins, |ins|)
      requires forall i :: 0 <= i < |ins| ==> sizes[i] == |ins[i]| && offsets[i] == Offset(ins, i)
      requires forall i :: 0 <= i < |ins| ==> |deflate(ins[i])| <= stride
      modifies this`freeBytes, slot, slot.input, slot.output
      modifies slot.inPtrs, slot.inSizes, slot.outPtrs, slot.outSizes, out
      ensures slot.Sound()
      ensures slot.inSizes == old(slot.inSizes) && slot.outPtrs == old(slot.outPtrs)
      ensures slot.outSizes == old(slot.outSizes) && slot.statuses == old(slot.statuses)
      ensures r == if !old(Grow(slot.input.Length, total) + Grow(slot.output.Length, Region(|ins|, stride))
                           + Grow(slot.scratch.Length, scratchBytes)
                           + Grow(slot.metaCapacity, POINTER_BYTES * |ins|) <= freeBytes)
                     then Fail(OUT_OF_DEVICE_MEMORY)
                   else if !old(slot.HasMetadata(|ins|)) then Fail(INVALID_DESTINATION)
                   else Pass
      ensures r == Pass ==> forall i :: 0 <= i < |ins| ==> out[i] == Filled(old(out[i]), ins[i], deflate(ins[i]))
      ensures r != Pass ==> forall i :: 0 <= i < |ins| ==> out[i] == old(out[i])
      ensures freeBytes + slot.Bytes() == old(freeBytes + slot.Bytes())
    {
      hide Offset, Region, Filled, Grow;
      var ok := Reserve(slot, |ins|, total, Region(|ins|, stride), scratchBytes);
      if !ok {
        return Fail(OUT_OF_DEVICE_MEMORY);
      }
      ok := RunBatch(slot, ins, sizes, offsets, total, stride, out);
      r := if ok then Pass else Fail(INVALID_DESTINATION);
    }

    /** Whatever slot comes next and whatever its buffers held: a non-empty batch passes exactly when the
        device has room and the slot already has its metadata arrays, and then block `i` of the output is
        the compression, size and checksum of block `i` of the input. A call gives no slot those arrays,
        so on a codec that starts without them every non-empty batch fails. */
    method CompressBatch(ins: seq<seq<byte>>, out: array<CompressedBlock>) returns (r: Outcome)
      requires Valid()
      modifies this, slots[nextSlot], slots[nextSlot].input, slots[nextSlot].output
      modifies slots[nextSlot].inPtrs, slots[nextSlot].inSizes, slots[nextSlot].outPtrs, slots[nextSlot].outSizes, out
      ensures Valid() && (old(Bare()) ==> Bare())
      ensures |ins| != out.Length ==> r == Fail(SIZE_MISMATCH)
      ensures r.Fail? ==> r.error.code == if |ins| != out.Length then InvalidArgument else CudaError
      ensures ins == [] && out.Length == 0 ==> r == Pass
      ensures |ins| == out.Length && ins != [] ==>
                r == if !old(Fits(ins)) then Fail(OUT_OF_DEVICE_MEMORY)
                     else if !old(slots[nextSlot].HasMetadata(|ins|)) then Fail(INVALID_DESTINATION)
                     else Pass
      ensures old(Bare()) && ins != [] ==> r.Fail?
      ensures r == Pass ==> forall i :: 0 <= i < |ins| ==> Encodes(out[i], old(out[i]), ins[i], deflate(ins[i]))
      ensures r != Pass ==> forall i :: 0 <= i < out.Length ==> out[i] == old(out[i])
      ensures nextSlot == if |ins| == out.Length && ins != [] then (old(nextSlot) + 1) % |slots| else old(nextSlot)
      ensures freeBytes + slots[old(nextSlot)].Bytes() == old(freeBytes + slots[nextSlot].Bytes())
    {
      hide Offset, Region, Filled, MaxSize, Grow;
      if |ins| != out.Length {
        return Fail(SIZE_MISMATCH);
      }
      if ins == [] {
        return Pass;
      }
      var slot := slots[nextSlot];
      assert slot in slots;
      assert Bare() ==> !slot.HasMetadata(|ins|);
      nextSlot := (nextSlot + 1) % |slots|;
      var sizes, offsets, total, maxChunk := Plan(ins);
      var stride := maxOutput(maxChunk);
      r := Perform(slot, ins, sizes, offsets, total, stride, scratchSize(|ins|, maxChunk), out);
      forall i | 0 <= i < |ins|
        ensures Encodes(Filled(old(out[i]), ins[i], deflate(ins[i])), old(out[i]), ins[i], deflate(ins[i]))
      {
        FilledEncodes(old(out[i]), ins[i], deflate(ins[i]));
      }
      hide Encodes;
    }
  }

  lemma StoredIsBounded()
    ensures Bounded(StoredDeflate, n => 6 * n + 5)
  {
    hide StoredDeflate;
    var deflate: Compressor, maxOutput: nat -> nat := StoredDeflate, n => 6 * n + 5;
    forall x: seq<byte>, n: nat | |x| <= n
      ensures |deflate(x)| <= maxOutput(n)
    {
      StoredBound(x);
      assert deflate(x) == StoredDeflate(x) && maxOutput(n) == 6 * n + 5;
    }
  }

  const NO_BLOCK := CompressedBlock(0, true, 0, [], 0, 0)

  /** The first batch of a new codec, with whatever memory: it fails. */
  method FirstBatchFails(source: seq<byte>, deviceBytes: nat) returns (r: Outcome)
    ensures r.Fail? && r.error.code == CudaError
  {
    hide StoredDeflate, Grow;
    StoredIsBounded();
    var slot := new Slot();
    var codec := new NvcompDeflateCodec([slot], deviceBytes, StoredDeflate, n => 6 * n + 5, (_, _) => 0);
    var out := new CompressedBlock[1](_ => NO_BLOCK);
    assert codec.slots[codec.nextSlot] == slot;
    r := codec.CompressBatch([source], out);
  }

  /** A slot whose metadata arrays have been allocated one by one, with room for one block. */
  method RepairedSlot() returns (slot: Slot)
    ensures fresh(slot) && slot.Sound() && slot.HasMetadata(1) && slot.inPtrs == null
    ensures fresh(slot.input) && fresh(slot.output) && fresh(slot.inSizes) && fresh(slot.outPtrs)
            && fresh(slot.outSizes)
    ensures slot.input.Length == slot.output.Length == slot.scratch.Length == slot.metaCapacity == 0
  {
    slot := new Slot();
    slot.inSizes, slot.outPtrs, slot.outSizes := new nat[1], new nat[1], new nat[1];
  }

  /** The same batch on such a slot, with just enough memory: it passes. */
  method RepairedBatchPasses(source: seq<byte>) returns (r: Outcome, block: CompressedBlock)
    ensures r == Pass && block == CompressBlock(FileBlock(0, true, 0, source), StoredDeflate(source))
  {
    hide StoredDeflate, Filled, Encodes, CompressBlock, Compute, Offset, Region, MaxSize;
    StoredIsBounded();
    var slot := RepairedSlot();
    var deviceBytes := |source| + (6 * |source| + 5) + POINTER_BYTES;
    var codec := new NvcompDeflateCodec([slot], deviceBytes, StoredDeflate, n => 6 * n + 5, (_, _) => 0);
    var out := new CompressedBlock[1](_ => NO_BLOCK);
    assert codec.slots[codec.nextSlot] == slot;
    OneBlock(source);
    r := codec.CompressBatch([source], out);
    block := out[0];
    EncodedIsCompressed(block, NO_BLOCK, FileBlock(0, true, 0, source), StoredDeflate(source));
  }

  lemma OneBlock(source: seq<byte>)
    ensures Offset([source], 1) == MaxSize([source]) == |source| && Region(1, 6 * |source| + 5) == 6 * |source| + 5
  {
    assert Offset([source], 0) == 0;
    assert [source][..0] == [];
  }

  // ---- The job's view --------------------------------------------------------------------------

  /** A job whose GPU batch is the per-block map of its CPU codec prepares the same file on both
      routes, and fails with the same error when a read fails. */
  lemma {:induction false} RoutesAgree(job: Job, f: nat, drained: seq<FileBlock>, deflate: Compressor)
    requires job.blockBytes > 0 && f < |job.files| && |drained| <= Count(job, f)
    requires forall x :: job.cpuCompress(x) == Ok(deflate(x))
    requires forall xs :: job.gpuCompress(xs) == Ok(Compressed(deflate, xs))
    ensures GpuFrom(job, f, drained) == CpuFrom(job, f, Gathered(drained, Compressed(deflate, Sources(drained))))
    decreases Count(job, f) - |drained|
  {
    hide Count, BlockOf, CompressBlock, Assembled;
    var out := Gathered(drained, Compressed(deflate, Sources(drained)));
    if |drained| < Count(job, f) && BlockOf(job, f, |drained|).Ok? {
      var b := BlockOf(job, f, |drained|).value;
      RoutesAgree(job, f, drained + [b], deflate);
      assert Gathered(drained + [b], Compressed(deflate, Sources(drained + [b])))
             == out + [CompressBlock(b, deflate(b.data))];
    }
  }

  /** The GPU codec as its slots leave it: empty batches succeed, all others fail. */
  ghost predicate FailsBatches(job: Job) {
    job.gpuCompress([]) == Ok([]) && forall xs :: xs != [] ==> job.gpuCompress(xs).Err?
  }

  lemma {:induction false} GpuFromFails(job: Job, f: nat, drained: seq<FileBlock>)
    requires job.blockBytes > 0 && f < |job.files| && |drained| <= Count(job, f) && FailsBatches(job)
    requires Count(job, f) > 0
    ensures GpuFrom(job, f, drained).Err?
    decreases Count(job, f) - |drained|
  {
    hide Count, BlockOf, Assembled;
    if |drained| == Count(job, f) {
      assert Sources(drained) != [];
    } else if BlockOf(job, f, |drained|).Ok? {
      GpuFromFails(job, f, drained + [BlockOf(job, f, |drained|).value]);
    }
  }

  /** With such a codec a file routed to the GPU is prepared exactly when it is cut into no blocks, which
      happens only when its block count is truncated to nothing. */
  lemma GpuFilesExactly(job: Job, f: nat)
    requires job.blockBytes > 0 && f < |job.files| && FailsBatches(job) && UsesGpu(job, f)
    ensures FileResult(job, f).Ok? <==> Count(job, f) == 0
    ensures Count(job, f) == 0 ==> !NoOverflow(job.files[f].entry.sizeBytes, job.blockBytes)
  {
    if Count(job, f) == 0 {
      assert Sources([]) == [];
      BlocksNeeded(job.files[f].entry.sizeBytes, job.blockBytes);
    } else {
      hide Count, Assembled, BlockOf;
      GpuFromFails(job, f, []);
    }
  }

  lemma BlocksNeeded(total: u64, b: u64)
    requires b > 0
    ensures NoOverflow(total, b) ==> Tasks(total, b) != []
  {
    if NoOverflow(total, b) {
      TilesWhenInRange(total, b);
    }
  }

  /** So under any schedule, cancelled or not, a job that succeeds has no file routed to the GPU but those
      cut into no blocks. */
  lemma GpuJobsFail(job: Job, schedule: seq<Action>, f: nat)
    requires ValidJob(job) && PipelineRuns.Run(job, schedule) && FailsBatches(job)
    requires f < |job.files| && UsesGpu(job, f)
    ensures var main := PipelineRuns.Final(job, schedule).main; main.Done? && main.result.Ok? ==> Count(job, f) == 0
  {
    hide PipelineRuns.Run, PipelineRuns.Final, PipelineSafety.Inv, FileResult, Sequential, Count, NoOverflow;
    GpuFilesExactly(job, f);
    PipelineRuns.CancellationSafety(job, schedule);
    var t := PipelineRuns.Final(job, schedule);
    assert |t.writer| == |job.files| ==> FileResult(job, f) == Ok(t.writer[f]);
  }
}
