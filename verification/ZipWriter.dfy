/** The streaming ZIP writer: headers are filled in place and appended to the output. */
module ZipWriter {
  import opened Bytes
  import opened Common
  import opened ZipFormat

  const SHORT_WRITE := Fail(Error(Io, "Short write"))

  /** `sanitise_archive_name`: erase leading separators one at a time. */
  method SanitiseArchiveName(path: seq<byte>) returns (generic: seq<byte>)
    ensures generic == Sanitised(path)
  {
    generic := path;
    while generic != [] && (generic[0] == SLASH || generic[0] == BACKSLASH)
      invariant Sanitised(generic) == Sanitised(path)
      decreases |generic|
    {
      generic := generic[1..];
    }
  }

  class ZipWriter {
    const capacity: nat              // bytes the device accepts; file offsets are signed 64-bit
    var sink: seq<byte>              // bytes that reached the output
    var failed: bool                 // the stream's sticky error state
    var bytesWritten: nat
    var central: seq<CentralEntry>
    var needsZip64: bool
    ghost var written: seq<PreparedFile>

    ghost predicate StreamOk()
      reads this
    {
      bytesWritten <= |sink| <= capacity < U64_LIMIT / 2 && (!failed ==> bytesWritten == |sink|)
    }

    /** Between calls the output is exactly the records of the accepted files, or extends
        them by part of one record when a write has failed. */
    ghost predicate Valid()
      reads this
    {
      && StreamOk()
      && central == Entries(written)
      && needsZip64 == AnyZip64(central)
      && (if failed then Locals(written) <= sink else sink == Locals(written))
    }

    constructor (capacity: nat)
      requires capacity < U64_LIMIT / 2
      ensures Valid() && !failed && written == [] && sink == [] && this.capacity == capacity
    {
      this.capacity := capacity;
      sink, failed, bytesWritten, central, needsZip64, written := [], false, 0, [], false, [];
    }

    method WriteBytes(data: seq<byte>) returns (r: Outcome)
      requires StreamOk()
      modifies this`sink, this`failed, this`bytesWritten
      ensures StreamOk()
      ensures r.Pass? <==> !old(failed) && old(|sink|) + |data| <= capacity
      ensures r.Pass? ==> !failed && sink == old(sink) + data
      ensures r.Fail? ==> r == SHORT_WRITE && failed && Torn(old(sink), data, sink)
    {
      if failed || |sink| + |data| > capacity {
        sink := sink + if failed then [] else data[..capacity - |sink|];
        failed := true;
        return SHORT_WRITE;
      }
      sink := sink + data;
      bytesWritten := bytesWritten + |data|;
      return Pass;
    }

    method WriteLocalHeader(e: CentralEntry) returns (r: Outcome)
      requires StreamOk()
      modifies this`sink, this`failed, this`bytesWritten
      ensures StreamOk()
      ensures r.Pass? <==> !old(failed) && old(|sink|) + |LocalHeader(e)| <= capacity
      ensures r.Pass? ==> !failed && sink == old(sink) + LocalHeader(e)
      ensures r.Fail? ==> r == SHORT_WRITE && failed && Torn(old(sink), LocalHeader(e), sink)
    {
      ghost var start := sink;
      var header := LocalFixedPart(e);
      LocalHeaderParts(e, start, header);
      hide LocalHeader, LocalExtra, Record, NeedsZip64;
      r := WriteBytes(header);
      if r.Fail? {
        TornInside(start, [], header, e.name + LocalExtra(e), sink);
        return;
      }
      r := WriteBytes(e.name);
      if r.Fail? {
        TornInside(start, header, e.name, LocalExtra(e), sink);
        return;
      }
      if NeedsZip64(e) {
        var extra := LocalExtraPart(e);
        r := WriteBytes(extra);
        if r.Fail? {
          TornInside(start, header + e.name, extra, [], sink);
        }
      }
    }

    /** The header as its three writes see it. */
    static lemma LocalHeaderParts(e: CentralEntry, start: seq<byte>, header: seq<byte>)
      requires header == Record(LOCAL_WIDTHS, LocalValues(e))
      ensures start + [] == start && start + (header + e.name) == start + header + e.name
      ensures [] + header + (e.name + LocalExtra(e)) == LocalHeader(e)
      ensures header + e.name + LocalExtra(e) == LocalHeader(e)
      ensures (header + e.name) + LocalExtra(e) + [] == LocalHeader(e)
      ensures start + LocalHeader(e) == start + header + e.name + LocalExtra(e)
      ensures !NeedsZip64(e) ==> LocalExtra(e) == []
    {
      assert LocalHeader(e) == header + e.name + LocalExtra(e) by {
        hide LocalExtra, LocalValues, Record;
      }
      hide LocalHeader, LocalExtra, LocalValues, Record, NeedsZip64;
      ThreePieces(start, header, e.name, LocalExtra(e));
    }

    static lemma ThreePieces(start: seq<byte>, a: seq<byte>, b: seq<byte>, c: seq<byte>)
      ensures start + [] == start && start + (a + b) == start + a + b
      ensures [] + a + (b + c) == a + b + c && (a + b) + c + [] == a + b + c
      ensures start + (a + b + c) == start + a + b + c
    {
    }

    static method LocalExtraPart(e: CentralEntry) returns (bytes: seq<byte>)
      requires NeedsZip64(e)
      ensures bytes == LocalExtra(e)
    {
      var extra := new byte[20](_ => 0);
      Put16(extra, 0, EXTRA_ID_ZIP64);
      Put16(extra, 2, 16);
      Put64(extra, 4, e.uncompressed);
      Put64(extra, 12, e.compressed);
      bytes := extra[..];
      assert bytes == extra[..20];
    }

    /** The record field by field, so that the stores can be matched one at a time. */
    static lemma LocalLayout(e: CentralEntry) returns (ws: seq<nat>, vs: seq<nat>)
      ensures |ws| == |vs| == 11 && Width(ws, |ws|) == 30
      ensures Record(ws, vs) == Record(LOCAL_WIDTHS, LocalValues(e))
      ensures ws[0] == 4 && ws[1] == 2 && ws[2] == 2 && ws[3] == 2 && ws[4] == 2 && ws[5] == 2 && ws[6] == 4
              && ws[7] == 4
      ensures ws[8] == 4 && ws[9] == 2 && ws[10] == 2
      ensures vs[0] == LFH_SIGNATURE && vs[1] == Version(e) && vs[2] == 0 && vs[3] == e.zipMethod
      ensures vs[4] == e.modTime && vs[5] == e.modDate && vs[6] == e.crc32 && vs[7] == Narrow(e, e.compressed)
      ensures vs[8] == Narrow(e, e.uncompressed) && vs[9] == |e.name| % U16_LIMIT && vs[10] == |LocalExtra(e)|
    {
      ws, vs := LOCAL_WIDTHS, LocalValues(e);
      LocalSize();
    }

    static method LocalFixedPart(e: CentralEntry) returns (bytes: seq<byte>)
      ensures bytes == Record(LOCAL_WIDTHS, LocalValues(e))
    {
      var zip64 := NeedsZip64(e);
      var hdr := new byte[30](_ => 0);
      ghost var ws, vs := LocalLayout(e);
      hide LocalValues, Record;
      Field32(hdr, 0, LFH_SIGNATURE, ws, vs, 0);
      Field16(hdr, 4, Version(e), ws, vs, 1);
      Field16(hdr, 6, 0, ws, vs, 2);
      Field16(hdr, 8, e.zipMethod, ws, vs, 3);
      Field16(hdr, 10, e.modTime, ws, vs, 4);
      Field16(hdr, 12, e.modDate, ws, vs, 5);
      Field32(hdr, 14, e.crc32, ws, vs, 6);
      Field32(hdr, 18, if zip64 then U32_MAX else e.compressed % U32_LIMIT, ws, vs, 7);
      Field32(hdr, 22, if zip64 then U32_MAX else e.uncompressed % U32_LIMIT, ws, vs, 8);
      Field16(hdr, 26, |e.name| % U16_LIMIT, ws, vs, 9);
      Field16(hdr, 28, if zip64 then 20 else 0, ws, vs, 10);
      bytes := hdr[..];
      assert bytes == hdr[..30] == Record(ws, vs)[..30] == Record(ws, vs);
    }

    /** One entry: header, then each block straight to the output. A failed write leaves
        the earlier entries and part of this one, and the entry is not recorded. */
    method WriteFile(file: PreparedFile) returns (r: Outcome)
      requires Valid()
      modifies this
      ensures Valid()
      ensures r.Pass? <==> !old(failed) && |Locals(old(written) + [file])| <= capacity
      ensures r.Pass? ==> !failed && written == old(written) + [file] && sink == Locals(written)
      ensures r.Fail? ==> r == SHORT_WRITE && r.error.code == Io && failed && written == old(written)
      ensures r.Fail? && !old(failed) ==> Locals(old(written)) <= sink <= Locals(old(written) + [file])
    {
      hide LocalHeader, Locals, Entries, Payload;
      ghost var files := written + [file];
      AppendFile(written, file);
      var name := SanitiseArchiveName(file.entry.archivePath);
      var entry := CentralEntry(name, METHOD_DEFLATE, file.fileCrc32, file.compressed, file.uncompressed,
                                bytesWritten, file.entry.dosTime, file.entry.dosDate);
      r := WriteRecord(entry, file.blocks);
      if r.Fail? {
        return;
      }
      if NeedsZip64(entry) {
        needsZip64 := true;
      }
      central := central + [entry];
      written := files;
    }

    method WriteRecord(entry: CentralEntry, blocks: seq<CompressedBlock>) returns (r: Outcome)
      requires StreamOk()
      modifies this`sink, this`failed, this`bytesWritten
      ensures StreamOk()
      ensures r.Pass? <==> !old(failed) && old(|sink|) + |LocalHeader(entry) + Payload(blocks)| <= capacity
      ensures r.Pass? ==> !failed && sink == old(sink) + (LocalHeader(entry) + Payload(blocks))
      ensures r.Fail? ==> r == SHORT_WRITE && failed
      ensures r.Fail? ==> Torn(old(sink), LocalHeader(entry) + Payload(blocks), sink)
    {
      hide LocalHeader;
      ghost var start, header, payload := sink, LocalHeader(entry), Payload(blocks);
      r := WriteLocalHeader(entry);
      if r.Fail? {
        TornInside(start, [], header, payload, sink);
        assert start + [] == start && [] + header == header;
        return;
      }
      r := WriteBlocks(blocks);
      if r.Fail? {
        TornInside(start, header, payload, [], sink);
        assert header + payload + [] == header + payload;
        return;
      }
      assert start + header + payload == start + (header + payload);
    }

    method WriteBlocks(blocks: seq<CompressedBlock>) returns (r: Outcome)
      requires StreamOk() && !failed
      modifies this`sink, this`failed, this`bytesWritten
      ensures StreamOk()
      ensures r.Pass? <==> old(|sink|) + |Payload(blocks)| <= capacity
      ensures r.Pass? ==> !failed && sink == old(sink) + Payload(blocks)
      ensures r.Fail? ==> r == SHORT_WRITE && failed && Torn(old(sink), Payload(blocks), sink)
    {
      for i := 0 to |blocks|
        invariant StreamOk() && !failed && sink == old(sink) + Payload(blocks[..i])
      {
        PayloadPrefix(blocks, i + 1);
        assert blocks[..i + 1][..i] == blocks[..i];
        assert old(sink) + Payload(blocks[..i + 1]) == sink + blocks[i].bytes;
        r := WriteBytes(blocks[i].bytes);
        if r.Fail? {
          return;
        }
      }
      assert blocks[..|blocks|] == blocks;
      r := Pass;
    }

    static lemma {:induction false} PayloadPrefix(blocks: seq<CompressedBlock>, i: nat)
      requires i <= |blocks|
      ensures Payload(blocks[..i]) <= Payload(blocks)
      decreases |blocks|
    {
      if i == |blocks| {
        assert blocks[..i] == blocks;
      } else {
        var init := blocks[..|blocks| - 1];
        assert init[..i] == blocks[..i];
        PayloadPrefix(init, i);
      }
    }

    /** The record field by field, so that the stores can be matched one at a time. */
    static lemma CentralLayout(e: CentralEntry) returns (ws: seq<nat>, vs: seq<nat>)
      ensures |ws| == |vs| == 17 && Width(ws, |ws|) == 46 && Width(ws, 8) == 20
      ensures Record(ws, vs) == Record(CENTRAL_WIDTHS, CentralValues(e))
      ensures ws[0] == 4 && ws[1] == 2 && ws[2] == 2 && ws[3] == 2 && ws[4] == 2 && ws[5] == 2 && ws[6] == 2
              && ws[7] == 4
      ensures ws[8] == 4 && ws[9] == 4 && ws[10] == 2 && ws[11] == 2 && ws[12] == 2 && ws[13] == 2 && ws[14] == 2
              && ws[15] == 4
      ensures ws[16] == 4
      ensures vs[0] == CDH_SIGNATURE && vs[1] == Version(e) && vs[2] == Version(e) && vs[3] == 0
      ensures vs[4] == e.zipMethod && vs[5] == e.modTime && vs[6] == e.modDate && vs[7] == e.crc32
      ensures vs[8] == Narrow(e, e.compressed) && vs[9] == Narrow(e, e.uncompressed)
      ensures vs[10] == |e.name| % U16_LIMIT && vs[11] == |CentralExtra(e)|
      ensures vs[12] == 0 && vs[13] == 0 && vs[14] == 0 && vs[15] == 0
      ensures vs[16] == Narrow(e, e.lfhOffset)
    {
      ws, vs := CENTRAL_WIDTHS, CentralValues(e);
      CentralSize();
      CentralHeadSize();
    }

    static method CentralFixedPart(e: CentralEntry, extraLen: u16) returns (bytes: seq<byte>)
      requires extraLen == |CentralExtra(e)|
      ensures bytes == Record(CENTRAL_WIDTHS, CentralValues(e))
    {
      hide CentralValues, CentralExtra, Record;
      CentralSize();
      var hdr := new byte[46](_ => 0);
      CentralHead(hdr, e);
      CentralTail(hdr, e, extraLen);
      bytes := hdr[..];
      ghost var rec := Record(CENTRAL_WIDTHS, CentralValues(e));
      assert bytes == hdr[..46] == rec[..46] == rec;
    }

    static method CentralHead(hdr: array<byte>, e: CentralEntry)
      requires hdr.Length == 46 == |Record(CENTRAL_WIDTHS, CentralValues(e))|
      modifies hdr
      ensures hdr[..20] == Record(CENTRAL_WIDTHS, CentralValues(e))[..20]
    {
      ghost var ws, vs := CentralLayout(e);
      hide CentralValues, CentralExtra, Record;
      var version := if NeedsZip64(e) then VERSION_ZIP64 else VERSION_DEFLATE;
      Field32(hdr, 0, CDH_SIGNATURE, ws, vs, 0);
      Field16(hdr, 4, version, ws, vs, 1);
      Field16(hdr, 6, version, ws, vs, 2);
      Field16(hdr, 8, 0, ws, vs, 3);
      Field16(hdr, 10, e.zipMethod, ws, vs, 4);
      Field16(hdr, 12, e.modTime, ws, vs, 5);
      Field16(hdr, 14, e.modDate, ws, vs, 6);
      Field32(hdr, 16, e.crc32, ws, vs, 7);
    }

    static method CentralTail(hdr: array<byte>, e: CentralEntry, extraLen: u16)
      requires hdr.Length == 46 == |Record(CENTRAL_WIDTHS, CentralValues(e))| && extraLen == |CentralExtra(e)|
      requires hdr[..20] == Record(CENTRAL_WIDTHS, CentralValues(e))[..20]
      modifies hdr
      ensures hdr[..46] == Record(CENTRAL_WIDTHS, CentralValues(e))[..46]
    {
      ghost var ws, vs := CentralLayout(e);
      hide CentralValues, CentralExtra, Record;
      var zip64 := NeedsZip64(e);
      Field32(hdr, 20, if zip64 then U32_MAX else e.compressed % U32_LIMIT, ws, vs, 8);
      Field32(hdr, 24, if zip64 then U32_MAX else e.uncompressed % U32_LIMIT, ws, vs, 9);
      Field16(hdr, 28, |e.name| % U16_LIMIT, ws, vs, 10);
      Field16(hdr, 30, extraLen, ws, vs, 11);
      Field16(hdr, 32, 0, ws, vs, 12);
      Field16(hdr, 34, 0, ws, vs, 13);
      Field16(hdr, 36, 0, ws, vs, 14);
      Field32(hdr, 38, 0, ws, vs, 15);
      Field32(hdr, 42, if zip64 then U32_MAX else e.lfhOffset % U32_LIMIT, ws, vs, 16);
    }

    /** One slot of the central extra field: taken only by a value that overflows. */
    static method PutOverflow(extra: array<byte>, cursor: nat, v: u64) returns (next: nat)
      requires 4 <= cursor && cursor + 8 <= extra.Length
      modifies extra
      ensures next == (if v >= U32_MAX then cursor + 8 else cursor)
      ensures extra[4..next] == old(extra[4..cursor]) + (if v >= U32_MAX then LE(8, v) else [])
    {
      next := cursor;
      ghost var before := extra[..cursor];
      assert extra[4..cursor] == before[4..];
      if v >= U32_MAX {
        Put64(extra, cursor, v);
        next := cursor + 8;
        assert extra[4..next] == (before + LE(8, v))[4..] == before[4..] + LE(8, v);
      }
    }

    /** The variable part: a cursor moves over the slots of the overflowing fields. */
    static method CentralExtraPart(e: CentralEntry) returns (bytes: seq<byte>)
      requires e.lfhOffset < U64_LIMIT
      ensures bytes == CentralExtra(e)
    {
      hide LE;
      bytes := [];
      if NeedsZip64(e) {
        var extra := new byte[28](_ => 0);
        var cursor := PutOverflow(extra, 4, e.uncompressed);
        cursor := PutOverflow(extra, cursor, e.compressed);
        cursor := PutOverflow(extra, cursor, e.lfhOffset);
        ghost var wide := extra[4..cursor];
        assert wide == WideFields(e);
        assert |wide| == cursor - 4;
        ghost var tail := extra[4..];
        SliceOfTail(extra, cursor);
        PutTag(extra, cursor - 4);
        bytes := extra[..cursor];
        SplitAtFour(extra, cursor);
        SliceOfTail(extra, cursor);
        assert extra[4..] == tail;
        assert bytes == LE(2, EXTRA_ID_ZIP64) + LE(2, |wide|) + wide;
      }
    }

    static method PutTag(extra: array<byte>, size: u16)
      requires extra.Length >= 4
      modifies extra
      ensures extra[..4] == LE(2, EXTRA_ID_ZIP64) + LE(2, size)
      ensures extra[4..] == old(extra[4..])
    {
      ghost var rest := extra[2..];
      assert extra[4..] == rest[2..];
      Put16(extra, 0, EXTRA_ID_ZIP64);
      assert extra[4..] == extra[2..][2..];
      Put16(extra, 2, size);
    }

    static lemma SliceOfTail(a: array<byte>, n: nat)
      requires 4 <= n <= a.Length
      ensures a[4..n] == a[4..][..n - 4]
    {
    }

    static lemma SplitAtFour(a: array<byte>, n: nat)
      requires 4 <= n <= a.Length
      ensures a[..n] == a[..4] + a[4..n]
    {
    }

    method WriteCentralEntry(e: CentralEntry) returns (r: Outcome)
      requires StreamOk() && e.lfhOffset < U64_LIMIT
      modifies this`sink, this`failed, this`bytesWritten
      ensures StreamOk()
      ensures r.Pass? <==> !old(failed) && old(|sink|) + |CentralHeader(e)| <= capacity
      ensures r.Pass? ==> !failed && sink == old(sink) + CentralHeader(e)
      ensures r.Fail? ==> r == SHORT_WRITE && failed && old(sink) <= sink
    {
      hide CentralValues, CentralExtra, Record;
      var extra := CentralExtraPart(e);
      var header := CentralFixedPart(e, |extra|);
      ghost var start := sink;
      assert start + CentralHeader(e) == start + header + e.name + extra;
      r := WriteBytes(header);
      if r.Fail? { return; }
      r := WriteBytes(e.name);
      if r.Fail? { return; }
      if |extra| > 0 {
        r := WriteBytes(extra);
      }
    }

    /** The record field by field, so that the stores can be matched one at a time. */
    static lemma EndLayout(zip64: bool, count: nat, size: nat, offset: nat) returns (ws: seq<nat>, vs: seq<nat>)
      ensures |ws| == |vs| == 8 && Width(ws, |ws|) == 22
      ensures Record(ws, vs) == Record(EOCD_WIDTHS, EndValues(zip64, count, size, offset))
      ensures ws[0] == 4 && ws[1] == 2 && ws[2] == 2 && ws[3] == 2 && ws[4] == 2 && ws[5] == 4 && ws[6] == 4
              && ws[7] == 2
      ensures vs[0] == EOCD_SIGNATURE && vs[1] == 0 && vs[2] == 0
              && vs[3] == (if zip64 then U16_MAX else count % U16_LIMIT)
      ensures vs[4] == (if zip64 then U16_MAX else count % U16_LIMIT)
      ensures vs[5] == (if zip64 then U32_MAX else size % U32_LIMIT)
      ensures vs[6] == (if zip64 then U32_MAX else offset % U32_LIMIT) && vs[7] == 0
    {
      ws, vs := EOCD_WIDTHS, EndValues(zip64, count, size, offset);
      EndSize();
    }

    /** The record field by field, so that the stores can be matched one at a time. */
    static lemma Zip64EndLayout(count: nat, size: nat, offset: nat) returns (ws: seq<nat>, vs: seq<nat>)
      ensures |ws| == |vs| == 10 && Width(ws, |ws|) == 56
      ensures Record(ws, vs) == Record(ZIP64_EOCD_WIDTHS, Zip64EndValues(count, size, offset))
      ensures ws[0] == 4 && ws[1] == 8 && ws[2] == 2 && ws[3] == 2 && ws[4] == 4 && ws[5] == 4 && ws[6] == 8
              && ws[7] == 8
      ensures ws[8] == 8 && ws[9] == 8
      ensures vs[0] == ZIP64_EOCD_SIGNATURE && vs[1] == 44 && vs[2] == VERSION_ZIP64 && vs[3] == VERSION_ZIP64
      ensures vs[4] == 0 && vs[5] == 0 && vs[6] == count && vs[7] == count
      ensures vs[8] == size && vs[9] == offset
    {
      ws, vs := ZIP64_EOCD_WIDTHS, Zip64EndValues(count, size, offset);
      Zip64EndSize();
    }

    /** The record field by field, so that the stores can be matched one at a time. */
    static lemma LocatorLayout(at: nat) returns (ws: seq<nat>, vs: seq<nat>)
      ensures |ws| == |vs| == 4 && Width(ws, |ws|) == 20
      ensures Record(ws, vs) == Record(LOCATOR_WIDTHS, LocatorValues(at))
      ensures ws[0] == 4 && ws[1] == 4 && ws[2] == 8 && ws[3] == 4
      ensures vs[0] == ZIP64_LOCATOR_SIGNATURE && vs[1] == 0 && vs[2] == at && vs[3] == 1
    {
      ws, vs := LOCATOR_WIDTHS, LocatorValues(at);
      LocatorSize();
    }

    static method Zip64EndPart(count: u64, size: u64, offset: u64) returns (bytes: seq<byte>)
      ensures bytes == Record(ZIP64_EOCD_WIDTHS, Zip64EndValues(count, size, offset))
    {
      var z64 := new byte[56](_ => 0);
      ghost var ws, vs := Zip64EndLayout(count, size, offset);
      hide Zip64EndValues;
      Field32(z64, 0, ZIP64_EOCD_SIGNATURE, ws, vs, 0);
      Field64(z64, 4, 44, ws, vs, 1);
      Field16(z64, 12, VERSION_ZIP64, ws, vs, 2);
      Field16(z64, 14, VERSION_ZIP64, ws, vs, 3);
      Field32(z64, 16, 0, ws, vs, 4);
      Field32(z64, 20, 0, ws, vs, 5);
      Field64(z64, 24, count, ws, vs, 6);
      Field64(z64, 32, count, ws, vs, 7);
      Field64(z64, 40, size, ws, vs, 8);
      Field64(z64, 48, offset, ws, vs, 9);
      bytes := z64[..];
      assert bytes == z64[..56] == Record(ws, vs)[..56] == Record(ws, vs);
    }

    static method LocatorPart(at: u64) returns (bytes: seq<byte>)
      ensures bytes == Record(LOCATOR_WIDTHS, LocatorValues(at))
    {
      var loc := new byte[20](_ => 0);
      ghost var ws, vs := LocatorLayout(at);
      hide LocatorValues;
      Field32(loc, 0, ZIP64_LOCATOR_SIGNATURE, ws, vs, 0);
      Field32(loc, 4, 0, ws, vs, 1);
      Field64(loc, 8, at, ws, vs, 2);
      Field32(loc, 16, 1, ws, vs, 3);
      bytes := loc[..];
      assert bytes == loc[..20] == Record(ws, vs)[..20] == Record(ws, vs);
    }

    static method EndPart(zip64: bool, count: nat, size: nat, offset: nat) returns (bytes: seq<byte>)
      ensures bytes == Record(EOCD_WIDTHS, EndValues(zip64, count, size, offset))
    {
      var eocd := new byte[22](_ => 0);
      ghost var ws, vs := EndLayout(zip64, count, size, offset);
      hide EndValues;
      Field32(eocd, 0, EOCD_SIGNATURE, ws, vs, 0);
      Field16(eocd, 4, 0, ws, vs, 1);
      Field16(eocd, 6, 0, ws, vs, 2);
      Field16(eocd, 8, if zip64 then U16_MAX else count % U16_LIMIT, ws, vs, 3);
      Field16(eocd, 10, if zip64 then U16_MAX else count % U16_LIMIT, ws, vs, 4);
      Field32(eocd, 12, if zip64 then U32_MAX else size % U32_LIMIT, ws, vs, 5);
      Field32(eocd, 16, if zip64 then U32_MAX else offset % U32_LIMIT, ws, vs, 6);
      Field16(eocd, 20, 0, ws, vs, 7);
      bytes := eocd[..];
      assert bytes == eocd[..22] == Record(ws, vs)[..22] == Record(ws, vs);
    }

    method WriteDirectory() returns (r: Outcome)
      requires StreamOk() && forall e :: e in central ==> e.lfhOffset < U64_LIMIT
      modifies this`sink, this`failed, this`bytesWritten
      ensures StreamOk()
      ensures r.Pass? <==> (central == [] || !old(failed)) && old(|sink|) + |Directory(central)| <= capacity
      ensures r.Pass? && central != [] ==> !failed
      ensures r.Pass? ==> sink == old(sink) + Directory(central) && failed == old(failed)
      ensures r.Pass? ==> bytesWritten == old(bytesWritten) + |Directory(central)|
      ensures r.Fail? ==> r == SHORT_WRITE && failed && old(sink) <= sink
    {
      hide CentralHeader;
      for i := 0 to |central|
        invariant StreamOk() && sink == old(sink) + Directory(central[..i])
        invariant failed == old(failed) && (i > 0 ==> !failed)
        invariant bytesWritten == old(bytesWritten) + |Directory(central[..i])|
      {
        DirectoryPrefix(central, i + 1);
        assert central[..i + 1][..i] == central[..i];
        assert old(sink) + Directory(central[..i + 1]) == sink + CentralHeader(central[i]);
        r := WriteCentralEntry(central[i]);
        if r.Fail? {
          return;
        }
      }
      assert central[..|central|] == central;
      r := Pass;
    }

    static lemma {:induction false} DirectoryPrefix(es: seq<CentralEntry>, i: nat)
      requires i <= |es|
      ensures |Directory(es[..i])| <= |Directory(es)|
      decreases |es|
    {
      if i == |es| {
        assert es[..i] == es;
      } else {
        var init := es[..|es| - 1];
        assert init[..i] == es[..i];
        DirectoryPrefix(init, i);
      }
    }

    /** The end records: a Zip64 pair when needed, then always the classic record. */
    method WriteEnd(zip64: bool, count: nat, size: nat, offset: nat) returns (r: Outcome)
      requires StreamOk()
      requires count < U64_LIMIT && size + offset < U64_LIMIT
      modifies this`sink, this`failed, this`bytesWritten
      ensures StreamOk()
      ensures r.Pass? <==> !old(failed) && old(|sink|) + |EndOfDirectory(zip64, count, size, offset)| <= capacity
      ensures r.Pass? ==> !failed && sink == old(sink) + EndOfDirectory(zip64, count, size, offset)
      ensures r.Fail? ==> r == SHORT_WRITE && failed && old(sink) <= sink
    {
      hide EndValues, Zip64EndValues, LocatorValues, Record;
      ghost var start, z := sink, Zip64End(zip64, count, size, offset);
      if zip64 {
        var z64 := Zip64EndPart(count, size, offset);
        var loc := LocatorPart(offset + size);
        assert start + z == start + z64 + loc;
        r := WriteBytes(z64);
        if r.Fail? { return; }
        r := WriteBytes(loc);
        if r.Fail? { return; }
      }
      assert sink == start + z;
      var eocd := EndPart(zip64, count, size, offset);
      assert start + (z + eocd) == start + z + eocd;
      r := WriteBytes(eocd);
    }

    /** `write_eocd`: central directory, then the end records that describe it. */
    method WriteEocd() returns (r: Outcome)
      requires Valid()
      modifies this`sink, this`failed, this`bytesWritten
      ensures r.Pass? <==> !old(failed) && |Archive(written)| <= capacity
      ensures r.Pass? ==> !failed && sink == Archive(written)
      ensures r.Fail? ==> r == SHORT_WRITE && failed && Locals(written) <= sink
    {
      OffsetsInLocals(written);
      DirectoryBound(central);
      hide EndOfDirectory, Locals, Entries, Directory, NeedsZip64;
      var cdOffset := bytesWritten;
      r := WriteDirectory();
      if r.Fail? { return; }
      var cdSize := bytesWritten - cdOffset;
      var zip64 := needsZip64 || |central| >= U16_MAX || cdSize >= U32_MAX || cdOffset >= U32_MAX;
      r := WriteEnd(zip64, |central|, cdSize, cdOffset);
    }

    /** `finish` succeeds when no write has failed and the archive fits the device, and then leaves
        exactly the archive of the accepted files. */
    method Finish() returns (r: Outcome)
      requires Valid()
      modifies this`sink, this`failed, this`bytesWritten
      ensures r.Pass? <==> !old(failed) && |Archive(written)| <= capacity
      ensures r.Pass? ==> !failed && sink == Archive(written)
      ensures r.Fail? ==> r == SHORT_WRITE && r.error.code == Io && Locals(written) <= sink
    {
      r := WriteEocd();
    }
  }
}
