/** The gzip writer (RFC 1952): one member, one file, whatever is asked of it. */
module GzipWriter {
  import opened Bytes
  import opened Common

  const SHORT_WRITE := Fail(Error(Io, "Short write"))
  const ONE_FILE := Fail(Error(FormatError, "Gzip is a single-stream format; combine inputs into a tar first"))
  const FLUSH_FAILED := Fail(Error(Io, "Failed to flush"))

  // ---- Layout ---------------------------------------------------------------------------

  /** Modification time: before 1970 is 0, and only the low 32 bits are kept. */
  function Mtime(unixTime: int): u32 {
    if unixTime < 0 then 0 else unixTime % U32_LIMIT
  }

  /** Identification, deflate, no flags, time, no extra flags, unknown system. */
  function Header(unixTime: int): (s: seq<byte>)
    ensures |s| == 10
  {
    [0x1f, 0x8b, 8, 0] + LE(4, Mtime(unixTime)) + [0, 0xff]
  }

  function Trailer(crc: u32, uncompressed: nat): (s: seq<byte>)
    ensures |s| == 8
  {
    LE(4, crc) + LE(4, uncompressed % U32_LIMIT)
  }

  function Member(p: PreparedFile): seq<byte> {
    Header(p.entry.unixTime) + Payload(p.blocks) + Trailer(p.fileCrc32, p.uncompressed)
  }

  // ---- The stream and its state --------------------------------------------------------------

  /** Output so far, the stream's sticky error state, and whether a file was taken. */
  datatype Stream = Stream(sink: seq<byte>, failed: bool, wroteOne: bool)

  /** A write to a device that accepts `capacity` bytes in all. */
  function Put(st: Stream, capacity: nat, data: seq<byte>): Stream
    requires |st.sink| <= capacity
  {
    if st.failed then st
    else if |st.sink| + |data| <= capacity then st.(sink := st.sink + data)
    else st.(sink := (st.sink + data)[..capacity], failed := true)
  }

  /** `write_file`: the first file goes out as one member, cut off where the device is full. */
  function WriteSpec(st: Stream, capacity: nat, p: PreparedFile): (Stream, Outcome)
    requires |st.sink| <= capacity
  {
    if st.wroteOne then (st, ONE_FILE)
    else
      var t := Put(st.(wroteOne := true), capacity, Member(p));
      (t, if t.failed then SHORT_WRITE else Pass)
  }

  class GzipWriter {
    const capacity: nat
    var sink: seq<byte>
    var failed: bool
    var wroteOne: bool
    var bytesWritten: nat

    ghost predicate Valid()
      reads this
    {
      |sink| <= capacity && (!failed ==> bytesWritten == |sink|)
    }

    ghost function State(): Stream
      reads this
    {
      Stream(sink, failed, wroteOne)
    }

    constructor (capacity: nat)
      ensures Valid() && State() == Stream([], false, false) && this.capacity == capacity
    {
      this.capacity := capacity;
      sink, failed, wroteOne, bytesWritten := [], false, false, 0;
    }

    method WriteBytes(data: seq<byte>) returns (r: Outcome)
      requires Valid()
      modifies this`sink, this`failed, this`bytesWritten
      ensures Valid() && State() == Put(old(State()), capacity, data)
      ensures r == if failed then SHORT_WRITE else Pass
    {
      if failed || |sink| + |data| > capacity {
        sink := if failed then sink else (sink + data)[..capacity];
        failed := true;
        return SHORT_WRITE;
      }
      sink := sink + data;
      bytesWritten := bytesWritten + |data|;
      r := Pass;
    }

    static method HeaderBytes(unixTime: int) returns (bytes: seq<byte>)
      ensures bytes == Header(unixTime)
    {
      hide LE;
      var header := new byte[10](i =>
        if i == 0 then 0x1f else if i == 1 then 0x8b else if i == 2 then 8 else if i == 9 then 0xff else 0);
      assert header[..4] == [0x1f, 0x8b, 8, 0];
      assert header[8..] == [0, 0xff];
      Put32(header, 4, if unixTime < 0 then 0 else unixTime % U32_LIMIT);
      bytes := header[..];
      assert bytes == header[..8] + header[8..];
    }

    static method TrailerBytes(crc: u32, uncompressed: nat) returns (bytes: seq<byte>)
      ensures bytes == Trailer(crc, uncompressed)
    {
      hide LE;
      var trailer := new byte[8](_ => 0);
      Put32(trailer, 0, crc);
      Put32(trailer, 4, uncompressed % U32_LIMIT);
      bytes := trailer[..];
      assert bytes == trailer[..8];
    }

    method WriteFile(p: PreparedFile) returns (r: Outcome)
      requires Valid()
      modifies this
      ensures Valid()
      ensures (State(), r) == WriteSpec(old(State()), capacity, p)
      ensures r.Fail? ==> r.error.code == if old(wroteOne) then FormatError else Io
    {
      hide Header, Trailer, Put, Payload;
      if wroteOne {
        return ONE_FILE;
      }
      wroteOne := true;
      ghost var start := State();
      var header := HeaderBytes(p.entry.unixTime);
      r := WriteBytes(header);
      ghost var rest := Trailer(p.fileCrc32, p.uncompressed);
      if r != Pass {
        PutStops(start, capacity, header, Payload(p.blocks) + rest);
        assert header + (Payload(p.blocks) + rest) == Member(p);
        return;
      }
      NoBlocks(p.blocks);
      assert header + Payload(p.blocks[..0]) == header;
      for i := 0 to |p.blocks|
        invariant Valid() && !failed && wroteOne && r == Pass
        invariant State() == Put(start, capacity, header + Payload(p.blocks[..i]))
      {
        PayloadStep(p.blocks, i);
        PutPut(start, capacity, header + Payload(p.blocks[..i]), p.blocks[i].bytes);
        assert header + Payload(p.blocks[..i]) + p.blocks[i].bytes == header + Payload(p.blocks[..i + 1]);
        r := WriteBytes(p.blocks[i].bytes);
        if r != Pass {
          ghost var later := PayloadSplit(p.blocks, i + 1);
          PutStops(start, capacity, header + Payload(p.blocks[..i + 1]), later + rest);
          assert header + Payload(p.blocks[..i + 1]) + (later + rest)
                 == header + (Payload(p.blocks[..i + 1]) + later) + rest;
          return;
        }
      }
      assert p.blocks[..|p.blocks|] == p.blocks;
      var trailer := TrailerBytes(p.fileCrc32, p.uncompressed);
      PutPut(start, capacity, header + Payload(p.blocks), trailer);
      r := WriteBytes(trailer);
    }

    method Finish() returns (r: Outcome)
      ensures r == if failed then FLUSH_FAILED else Pass
      ensures r.Fail? ==> r.error.code == Io
    {
      r := if failed then FLUSH_FAILED else Pass;
    }
  }

  lemma NoBlocks(blocks: seq<CompressedBlock>)
    ensures Payload(blocks[..0]) == []
  {
  }

  lemma PayloadStep(blocks: seq<CompressedBlock>, i: nat)
    requires i < |blocks|
    ensures Payload(blocks[..i + 1]) == Payload(blocks[..i]) + blocks[i].bytes
  {
    assert blocks[..i + 1][..i] == blocks[..i];
  }

  lemma {:induction false} PayloadSplit(blocks: seq<CompressedBlock>, i: nat) returns (later: seq<byte>)
    requires i <= |blocks|
    ensures Payload(blocks) == Payload(blocks[..i]) + later
    decreases |blocks|
  {
    later := [];
    if i == |blocks| {
      assert blocks[..i] == blocks;
    } else {
      var n := |blocks| - 1;
      later := PayloadSplit(blocks[..n], i);
      assert blocks[..n][..i] == blocks[..i];
      assert Payload(blocks[..i]) + later + blocks[n].bytes == Payload(blocks[..i]) + (later + blocks[n].bytes);
      later := later + blocks[n].bytes;
    }
  }

  /** Two writes are one, and nothing follows a failed one. */
  lemma PutPut(st: Stream, capacity: nat, a: seq<byte>, b: seq<byte>)
    requires |st.sink| <= capacity
    ensures |Put(st, capacity, a).sink| <= capacity
    ensures Put(Put(st, capacity, a), capacity, b) == Put(st, capacity, a + b)
  {
    var both := st.sink + (a + b);
    assert both == st.sink + a + b;
    if !st.failed && |st.sink| + |a| > capacity {
      assert (st.sink + a)[..capacity] == both[..capacity];
    }
  }

  lemma PutStops(st: Stream, capacity: nat, a: seq<byte>, b: seq<byte>)
    requires |st.sink| <= capacity && Put(st, capacity, a).failed
    ensures Put(st, capacity, a + b) == Put(st, capacity, a)
  {
    PutPut(st, capacity, a, b);
  }

  // ---- Any sequence of calls ----------------------------------------------------------------------

  function AfterCalls(capacity: nat, files: seq<PreparedFile>): (st: Stream)
    ensures |st.sink| <= capacity
  {
    if files == [] then Stream([], false, false)
    else WriteSpec(AfterCalls(capacity, files[..|files| - 1]), capacity, files[|files| - 1]).0
  }

  /** Whatever is written, the output is the member of the first file (cut off only by a full
      device), and every call after the first reports a format error. */
  lemma {:induction false} AtMostOneMember(capacity: nat, files: seq<PreparedFile>)
    ensures AfterCalls(capacity, files)
            == if files == [] then Stream([], false, false)
               else
                 var m := Member(files[0]);
                 Stream(if |m| <= capacity then m else m[..capacity], |m| > capacity, true)
    ensures forall k :: 0 < k < |files|
                        ==> WriteSpec(AfterCalls(capacity, files[..k]), capacity, files[k]).1 == ONE_FILE
    decreases |files|
  {
    hide Member;
    if files != [] {
      var n := |files| - 1;
      AtMostOneMember(capacity, files[..n]);
      forall k | 0 < k < |files|
        ensures WriteSpec(AfterCalls(capacity, files[..k]), capacity, files[k]).1 == ONE_FILE
      {
        if k < n {
          assert files[..n][..k] == files[..k] && files[..n][k] == files[k];
        }
      }
      if n == 0 {
        assert files[..0] == [];
      }
    }
  }
}
