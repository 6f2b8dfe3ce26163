/**
 The CPU codec: one call of zlib's `deflate` with Z_FINISH per block. zlib is known by its contract;
 what the codec adds are the output buffer, the 32-bit counters of the stream and the checksum.
 */
module ZlibDeflateCodec {
  import opened Bytes
  import opened Common
  import opened Crc32Model
  import opened Deflate
  import opened Assembler

  const INIT_FAILED := Error(CodecError, "deflateInit2 failed")
  const NOT_FINISHED := Error(CodecError, "deflate did not finish")

  datatype ReturnCode = StreamEnd | NeedsOutput

  /** `deflateBound` never underestimates. */
  ghost predicate BoundHolds(deflate: Compressor, bound: nat -> nat) {
    forall x: seq<byte> :: |deflate(x)| <= bound(|x|)
  }

  /** What `compress` stores for a source: the stream counters see sizes modulo 2^32. */
  function ZlibStream(deflate: Compressor, bound: nat -> nat, source: seq<byte>): Result<seq<byte>> {
    var kept := source[..|source| % U32_LIMIT];
    if |deflate(kept)| <= bound(|source|) % U32_LIMIT then Ok(deflate(kept)) else Err(NOT_FINISHED)
  }

  class ZStream {
    var nextIn: seq<byte>
    var nextOut: array<byte>
    var availIn: nat
    var availOut: nat
    var totalOut: nat

    constructor (nextIn: seq<byte>, nextOut: array<byte>, availIn: nat, availOut: nat)
      ensures this.nextIn == nextIn && this.nextOut == nextOut
      ensures this.availIn == availIn && this.availOut == availOut && totalOut == 0
    {
      this.nextIn, this.nextOut, this.availIn, this.availOut, totalOut := nextIn, nextOut, availIn, availOut, 0;
    }

    /** `deflate(Z_FINISH)` on a fresh stream: all of the available input becomes one complete stream,
        or as much of it as there is room for. */
    method Finish(deflate: Compressor) returns (rc: ReturnCode)
      requires availIn <= |nextIn| && availOut <= nextOut.Length && totalOut == 0
      modifies this, nextOut
      ensures nextOut == old(nextOut)
      ensures var stream := deflate(old(nextIn[..availIn]));
              && (rc == StreamEnd <==> |stream| <= old(availOut))
              && (rc == StreamEnd ==> totalOut == |stream| <= nextOut.Length && nextOut[..totalOut] == stream)
    {
      var stream := deflate(nextIn[..availIn]);
      var n := if |stream| <= availOut then |stream| else availOut;
      forall k | 0 <= k < n {
        nextOut[k] := stream[k];
      }
      totalOut, availIn, availOut := n, 0, availOut - n;
      rc := if n == |stream| then StreamEnd else NeedsOutput;
    }
  }

  /** `initialised` is whether zlib could set up its stream. */
  method Compress(deflate: Compressor, bound: nat -> nat, initialised: bool, block: FileBlock)
    returns (r: Result<CompressedBlock>)
    requires BoundHolds(deflate, bound)
    ensures !initialised ==> r == Err(INIT_FAILED)
    ensures r.Err? ==> r.error.code == CodecError
    ensures initialised ==>
              r == match ZlibStream(deflate, bound, block.data)
                   case Err(e) => Err(e)
                   case Ok(stream) => Ok(CompressBlock(block, stream))
  {
    if !initialised {
      return Err(INIT_FAILED);
    }
    var source := block.data;
    var bytes := new byte[bound(|source|)];
    ModLe(bytes.Length, U32_LIMIT);
    ModLe(|source|, U32_LIMIT);
    var stream := new ZStream(source, bytes, |source| % U32_LIMIT, bytes.Length % U32_LIMIT);
    var rc := stream.Finish(deflate);
    if rc != StreamEnd {
      return Err(NOT_FINISHED);
    }
    ComputeBound(source);
    r := Ok(CompressedBlock(block.index, block.isLast, block.offset, stream.nextOut[..stream.totalOut],
                            Compute(source), |source|));
  }

  lemma ModLe(x: nat, n: nat)
    requires n > 0
    ensures x % n <= x
  {
  }

  /** A stored block holds one complete stream of its whole source exactly when the source is shorter
      than 2^32 bytes; then the codec fails only if zlib's bound needs 2^32 bytes or more, and does fail
      when what is left of the bound after truncation is too small for the stream. */
  lemma WholeStreamExactly(deflate: Compressor, inflate: Inflater, bound: nat -> nat, source: seq<byte>)
    requires SelfDelimiting(deflate, inflate) && BoundHolds(deflate, bound)
    ensures |source| < U32_LIMIT && bound(|source|) < U32_LIMIT
            ==> ZlibStream(deflate, bound, source) == Ok(deflate(source))
    ensures |source| < U32_LIMIT && U32_LIMIT <= bound(|source|) < |deflate(source)| + U32_LIMIT
            ==> ZlibStream(deflate, bound, source) == Err(NOT_FINISHED)
    ensures ZlibStream(deflate, bound, source).Ok? ==>
              (var stream := ZlibStream(deflate, bound, source).value;
               (inflate(stream) == Some((source, |stream|)) <==> |source| < U32_LIMIT))
  {
    var n := |source| % U32_LIMIT;
    var kept := source[..n];
    assert inflate(deflate(kept) + []) == Some((kept, |deflate(kept)|));
    assert deflate(kept) + [] == deflate(kept);
    assert |source| < U32_LIMIT ==> kept == source;
  }
}
