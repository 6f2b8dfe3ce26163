/** Stitching compressed blocks into a file ready for the writer. */
module Assembler {
  import opened Bytes
  import opened Common
  import opened Crc32Model
  import opened AsyncReader

  datatype Totals = Totals(crc: u32, uncompressed: u64, compressed: u64)

  /** One turn of the stitching loop; the first non-empty prefix is taken as is. */
  function Stitch(t: Totals, b: CompressedBlock): Totals {
    CombineBound(t.crc, b.crc32, b.uncompressed);
    Totals(if t.uncompressed == 0 then b.crc32 else Combine(t.crc, b.crc32, b.uncompressed),
           (t.uncompressed + b.uncompressed) % U64_LIMIT,
           (t.compressed + |b.bytes|) % U64_LIMIT)
  }

  function TotalsOf(blocks: seq<CompressedBlock>): Totals {
    if blocks == [] then Totals(0, 0, 0) else Stitch(TotalsOf(blocks[..|blocks| - 1]), blocks[|blocks| - 1])
  }

  function Assembled(entry: FileEntry, blocks: seq<CompressedBlock>): PreparedFile {
    var t := TotalsOf(blocks);
    PreparedFile(entry, blocks, t.crc, t.uncompressed, t.compressed)
  }

  method Assemble(entry: FileEntry, blocks: seq<CompressedBlock>) returns (file: PreparedFile)
    ensures file == Assembled(entry, blocks)
  {
    var crc: u32, uncompressed: u64, compressed: u64 := 0, 0, 0;
    for i := 0 to |blocks|
      invariant TotalsOf(blocks[..i]) == Totals(crc, uncompressed, compressed)
    {
      var b := blocks[i];
      assert blocks[..i + 1][..i] == blocks[..i];
      if uncompressed == 0 {
        crc := b.crc32;
      } else {
        CombineBound(crc, b.crc32, b.uncompressed);
        crc := CombineBySquaring(crc, b.crc32, b.uncompressed);
      }
      uncompressed := (uncompressed + b.uncompressed) % U64_LIMIT;
      compressed := (compressed + |b.bytes|) % U64_LIMIT;
    }
    assert blocks[..|blocks|] == blocks;
    file := PreparedFile(entry, blocks, crc, uncompressed, compressed);
  }

  /** A block as the codecs return it: stream, checksum and size of its source. */
  function CompressBlock(b: FileBlock, stream: seq<byte>): CompressedBlock {
    ComputeBound(b.data);
    CompressedBlock(b.index, b.isLast, b.offset, stream, Compute(b.data), |b.data|)
  }

  function Sources(blocks: seq<FileBlock>): (parts: seq<seq<byte>>)
    ensures |parts| == |blocks| && forall i :: 0 <= i < |blocks| ==> parts[i] == blocks[i].data
  {
    seq(|blocks|, i requires 0 <= i < |blocks| => blocks[i].data)
  }

  function Streams(blocks: seq<CompressedBlock>): (parts: seq<seq<byte>>)
    ensures |parts| == |blocks| && forall i :: 0 <= i < |blocks| ==> parts[i] == blocks[i].bytes
  {
    seq(|blocks|, i requires 0 <= i < |blocks| => blocks[i].bytes)
  }

  /** `cs` are the blocks `bs` after some codec. */
  ghost predicate CodedFrom(cs: seq<CompressedBlock>, bs: seq<FileBlock>) {
    |cs| == |bs| && forall i :: 0 <= i < |cs| ==> cs[i] == CompressBlock(bs[i], cs[i].bytes)
  }

  lemma {:induction false} PayloadIsConcat(cs: seq<CompressedBlock>)
    ensures Payload(cs) == Concat(Streams(cs))
  {
    if cs != [] {
      var init := cs[..|cs| - 1];
      PayloadIsConcat(init);
      assert Streams(cs)[..|cs| - 1] == Streams(init);
    }
  }

  lemma StitchStep(t: Totals, before: seq<byte>, b: CompressedBlock, source: seq<byte>)
    requires t.crc == Compute(before) && t.uncompressed == |before|
    requires b.crc32 == Compute(source) && b.uncompressed == |source|
    requires |before| + |source| < U64_LIMIT && t.compressed + |b.bytes| < U64_LIMIT
    ensures Stitch(t, b).crc == Compute(before + source)
    ensures Stitch(t, b).uncompressed == |before + source|
    ensures Stitch(t, b).compressed == t.compressed + |b.bytes|
  {
    hide Compute, Combine;
    if before == [] {
      assert before + source == source;
    } else {
      CombineIsConcatenation(before, source);
    }
  }

  /** For every split into blocks, empty ones included, the stitched totals are those of the
      whole: checksum of the concatenated sources, their length, and the payload length. */
  lemma {:induction false} StitchedTotals(cs: seq<CompressedBlock>, bs: seq<FileBlock>)
    requires CodedFrom(cs, bs)
    requires |Concat(Sources(bs))| < U64_LIMIT && |Payload(cs)| < U64_LIMIT
    ensures var whole := Concat(Sources(bs));
            && TotalsOf(cs).crc == Compute(whole)
            && TotalsOf(cs).uncompressed == |whole|
            && TotalsOf(cs).compressed == |Payload(cs)|
    decreases |cs|
  {
    hide Compute, Combine, Stitch;
    if cs == [] {
      ComputeEmpty();
      assert Sources(bs) == [];
    } else {
      var n := |cs| - 1;
      var before, source := Concat(Sources(bs[..n])), bs[n].data;
      assert Sources(bs)[..n] == Sources(bs[..n]);
      assert Concat(Sources(bs)) == before + source;
      assert Payload(cs) == Payload(cs[..n]) + cs[n].bytes;
      StitchedTotals(cs[..n], bs[..n]);
      StitchStep(TotalsOf(cs[..n]), before, cs[n], source);
    }
  }

  /** The checksum of a file does not depend on how it was cut. */
  lemma SplitIndependence(cs1: seq<CompressedBlock>, bs1: seq<FileBlock>, cs2: seq<CompressedBlock>,
                          bs2: seq<FileBlock>)
    requires CodedFrom(cs1, bs1) && CodedFrom(cs2, bs2)
    requires Concat(Sources(bs1)) == Concat(Sources(bs2)) && |Concat(Sources(bs1))| < U64_LIMIT
    requires |Payload(cs1)| < U64_LIMIT && |Payload(cs2)| < U64_LIMIT
    ensures TotalsOf(cs1).crc == TotalsOf(cs2).crc && TotalsOf(cs1).uncompressed == TotalsOf(cs2).uncompressed
  {
    StitchedTotals(cs1, bs1);
    StitchedTotals(cs2, bs2);
  }
}
