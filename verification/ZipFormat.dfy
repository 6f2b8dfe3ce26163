/** The byte layout of the archive the ZIP writer produces. */
module ZipFormat {
  import opened Bytes
  import opened Common

  const LFH_SIGNATURE: u32 := 0x04034b50
  const CDH_SIGNATURE: u32 := 0x02014b50
  const EOCD_SIGNATURE: u32 := 0x06054b50
  const ZIP64_EOCD_SIGNATURE: u32 := 0x06064b50
  const ZIP64_LOCATOR_SIGNATURE: u32 := 0x07064b50
  const METHOD_DEFLATE: u16 := 8
  const EXTRA_ID_ZIP64: u16 := 1
  const VERSION_DEFLATE: u16 := 20
  const VERSION_ZIP64: u16 := 45

  // Field widths, in bytes, of the five fixed records.
  const LOCAL_WIDTHS: seq<nat> := [4, 2, 2, 2, 2, 2, 4, 4, 4, 2, 2]
  const CENTRAL_WIDTHS: seq<nat> := [4, 2, 2, 2, 2, 2, 2, 4] + [4, 4, 2, 2, 2, 2, 2, 4, 4]
  const EOCD_WIDTHS: seq<nat> := [4, 2, 2, 2, 2, 4, 4, 2]
  const ZIP64_EOCD_WIDTHS: seq<nat> := [4, 8, 2, 2, 4, 4, 8, 8, 8, 8]
  const LOCATOR_WIDTHS: seq<nat> := [4, 4, 8, 4]

  datatype CentralEntry = CentralEntry(
    name: seq<byte>, zipMethod: u16, crc32: u32, compressed: u64, uncompressed: u64,
    lfhOffset: nat, modTime: u16, modDate: u16)

  predicate NeedsZip64(e: CentralEntry) {
    e.compressed >= U32_MAX || e.uncompressed >= U32_MAX || e.lfhOffset >= U32_MAX
  }

  predicate AnyZip64(es: seq<CentralEntry>) {
    exists e :: e in es && NeedsZip64(e)
  }

  const SLASH: byte := 0x2F
  const BACKSLASH: byte := 0x5C

  function Sanitised(path: seq<byte>): (name: seq<byte>)
    ensures name == [] || (name[0] != SLASH && name[0] != BACKSLASH)
  {
    if path != [] && (path[0] == SLASH || path[0] == BACKSLASH) then Sanitised(path[1..]) else path
  }

  /** Archive names are the path without its leading separators, and with nothing else removed. */
  lemma {:induction false} SanitisedMeaning(path: seq<byte>) returns (k: nat)
    ensures k <= |path| && Sanitised(path) == path[k..]
    ensures forall i :: 0 <= i < k ==> path[i] == SLASH || path[i] == BACKSLASH
    ensures k < |path| ==> path[k] != SLASH && path[k] != BACKSLASH
    decreases |path|
  {
    k := 0;
    if path != [] && (path[0] == SLASH || path[0] == BACKSLASH) {
      k := SanitisedMeaning(path[1..]);
      k := k + 1;
    }
  }

  function EntryOf(f: PreparedFile, offset: nat): CentralEntry {
    CentralEntry(Sanitised(f.entry.archivePath), METHOD_DEFLATE, f.fileCrc32, f.compressed, f.uncompressed,
                 offset, f.entry.dosTime, f.entry.dosDate)
  }

  function Version(e: CentralEntry): u16 {
    if NeedsZip64(e) then VERSION_ZIP64 else VERSION_DEFLATE
  }

  /** A 32-bit field: the sentinel as soon as any field of the entry overflows. */
  function Narrow(e: CentralEntry, v: nat): u32 {
    if NeedsZip64(e) then U32_MAX else v % U32_LIMIT
  }

  function LocalExtra(e: CentralEntry): (s: seq<byte>)
    ensures |s| == if NeedsZip64(e) then 20 else 0
  {
    if NeedsZip64(e) then
      LE(2, EXTRA_ID_ZIP64) + LE(2, 16) + LE(8, e.uncompressed) + LE(8, e.compressed)
    else []
  }

  function LocalValues(e: CentralEntry): (vs: seq<nat>)
    ensures |vs| == 11
  {
    [LFH_SIGNATURE, Version(e), 0, e.zipMethod, e.modTime, e.modDate, e.crc32,
     Narrow(e, e.compressed), Narrow(e, e.uncompressed), |e.name| % U16_LIMIT, |LocalExtra(e)|]
  }

  function LocalHeader(e: CentralEntry): seq<byte> {
    Record(LOCAL_WIDTHS, LocalValues(e)) + e.name + LocalExtra(e)
  }

  /** The 64-bit values of the central extra field: only those that overflow. */
  function WideFields(e: CentralEntry): (s: seq<byte>)
    ensures |s| <= 24
  {
    (if e.uncompressed >= U32_MAX then LE(8, e.uncompressed) else [])
    + (if e.compressed >= U32_MAX then LE(8, e.compressed) else [])
    + (if e.lfhOffset >= U32_MAX then LE(8, e.lfhOffset) else [])
  }

  function CentralExtra(e: CentralEntry): (s: seq<byte>)
    ensures |s| <= 28
  {
    if NeedsZip64(e) then LE(2, EXTRA_ID_ZIP64) + LE(2, |WideFields(e)|) + WideFields(e) else []
  }

  function CentralValues(e: CentralEntry): (vs: seq<nat>)
    ensures |vs| == 17
  {
    [CDH_SIGNATURE, Version(e), Version(e), 0, e.zipMethod, e.modTime, e.modDate, e.crc32]
    + [Narrow(e, e.compressed), Narrow(e, e.uncompressed), |e.name| % U16_LIMIT, |CentralExtra(e)|,
       0, 0, 0, 0, Narrow(e, e.lfhOffset)]
  }

  function CentralHeader(e: CentralEntry): seq<byte> {
    Record(CENTRAL_WIDTHS, CentralValues(e)) + e.name + CentralExtra(e)
  }

  function LocalRecord(f: PreparedFile, offset: nat): seq<byte> {
    LocalHeader(EntryOf(f, offset)) + Payload(f.blocks)
  }

  /** Local headers and payloads of the files, from offset 0. */
  function Locals(fs: seq<PreparedFile>): seq<byte> {
    if fs == [] then []
    else
      var before := Locals(fs[..|fs| - 1]);
      before + LocalRecord(fs[|fs| - 1], |before|)
  }

  function Entries(fs: seq<PreparedFile>): (es: seq<CentralEntry>)
    ensures |es| == |fs|
  {
    if fs == [] then []
    else
      Entries(fs[..|fs| - 1]) + [EntryOf(fs[|fs| - 1], |Locals(fs[..|fs| - 1])|)]
  }

  function Directory(es: seq<CentralEntry>): seq<byte> {
    if es == [] then [] else Directory(es[..|es| - 1]) + CentralHeader(es[|es| - 1])
  }

  predicate UsesZip64(es: seq<CentralEntry>, size: nat, offset: nat) {
    AnyZip64(es) || |es| >= U16_MAX || size >= U32_MAX || offset >= U32_MAX
  }

  function Zip64EndValues(count: nat, size: nat, offset: nat): (vs: seq<nat>)
    ensures |vs| == 10
  {
    [ZIP64_EOCD_SIGNATURE, 44, VERSION_ZIP64, VERSION_ZIP64, 0, 0, count, count, size, offset]
  }

  function LocatorValues(at: nat): (vs: seq<nat>)
    ensures |vs| == 4
  {
    [ZIP64_LOCATOR_SIGNATURE, 0, at, 1]
  }

  function EndValues(zip64: bool, count: nat, size: nat, offset: nat): (vs: seq<nat>)
    ensures |vs| == 8
  {
    [EOCD_SIGNATURE, 0, 0,
     if zip64 then U16_MAX else count % U16_LIMIT, if zip64 then U16_MAX else count % U16_LIMIT,
     if zip64 then U32_MAX else size % U32_LIMIT, if zip64 then U32_MAX else offset % U32_LIMIT, 0]
  }

  function Zip64End(zip64: bool, count: nat, size: nat, offset: nat): seq<byte> {
    if zip64 then
      Record(ZIP64_EOCD_WIDTHS, Zip64EndValues(count, size, offset))
      + Record(LOCATOR_WIDTHS, LocatorValues(offset + size))
    else []
  }

  function EndOfDirectory(zip64: bool, count: nat, size: nat, offset: nat): seq<byte> {
    Zip64End(zip64, count, size, offset) + Record(EOCD_WIDTHS, EndValues(zip64, count, size, offset))
  }

  function Archive(fs: seq<PreparedFile>): seq<byte> {
    var locals := Locals(fs);
    var es := Entries(fs);
    var directory := Directory(es);
    locals + directory
    + EndOfDirectory(UsesZip64(es, |directory|, |locals|), |es|, |directory|, |locals|)
  }

  lemma AppendFile(fs: seq<PreparedFile>, f: PreparedFile)
    ensures Locals(fs + [f]) == Locals(fs) + LocalRecord(f, |Locals(fs)|)
    ensures Entries(fs + [f]) == Entries(fs) + [EntryOf(f, |Locals(fs)|)]
    ensures AnyZip64(Entries(fs + [f])) <==> AnyZip64(Entries(fs)) || NeedsZip64(EntryOf(f, |Locals(fs)|))
  {
    assert (fs + [f])[..|fs|] == fs;
    var es, e := Entries(fs), EntryOf(f, |Locals(fs)|);
    forall x ensures x in es + [e] <==> x in es || x == e {
    }
  }

  lemma LocalSize()
    ensures Width(LOCAL_WIDTHS, 11) == 30
  {
    var ws := LOCAL_WIDTHS;
    assert Width(ws, 2) == 6;
    assert Width(ws, 4) == 10;
    assert Width(ws, 6) == 14;
    assert Width(ws, 8) == 22;
    assert Width(ws, 10) == 28;
  }

  lemma {:induction false} WidthAppend(a: seq<nat>, b: seq<nat>, k: nat)
    requires k <= |b|
    ensures Width(a + b, |a| + k) == Width(a, |a|) + Width(b, k)
  {
    if k == 0 {
      WidthPrefix(a, b, |a|);
    } else {
      WidthAppend(a, b, k - 1);
    }
  }

  lemma {:induction false} WidthPrefix(a: seq<nat>, b: seq<nat>, k: nat)
    requires k <= |a|
    ensures Width(a + b, k) == Width(a, k)
  {
    if k > 0 {
      WidthPrefix(a, b, k - 1);
    }
  }

  lemma CentralSize()
    ensures Width(CENTRAL_WIDTHS, 17) == 46
  {
    var a, b := [4, 2, 2, 2, 2, 2, 2, 4], [4, 4, 2, 2, 2, 2, 2, 4, 4];
    WidthAppend(a, b, 9);
    assert Width(a, 4) == 10 && Width(b, 3) == 10 && Width(b, 6) == 16;
  }

  lemma CentralHeadSize()
    ensures Width(CENTRAL_WIDTHS, 8) == 20
  {
    var a, b := [4, 2, 2, 2, 2, 2, 2, 4], [4, 4, 2, 2, 2, 2, 2, 4, 4];
    WidthPrefix(a, b, 8);
    assert Width(a, 4) == 10;
  }

  lemma EndSize()
    ensures Width(EOCD_WIDTHS, 8) == 22
  {
    var ws := EOCD_WIDTHS;
    assert Width(ws, 2) == 6;
    assert Width(ws, 4) == 10;
    assert Width(ws, 6) == 16;
  }

  lemma Zip64EndSize()
    ensures Width(ZIP64_EOCD_WIDTHS, 10) == 56
  {
    var ws := ZIP64_EOCD_WIDTHS;
    assert Width(ws, 2) == 12;
    assert Width(ws, 4) == 16;
    assert Width(ws, 6) == 24;
    assert Width(ws, 8) == 40;
  }

  lemma LocatorSize()
    ensures Width(LOCATOR_WIDTHS, 4) == 20
  {
    var ws := LOCATOR_WIDTHS;
    assert Width(ws, 2) == 8;
  }

  /** Every recorded offset lies inside the records. */
  lemma {:induction false} OffsetsInLocals(fs: seq<PreparedFile>)
    ensures forall e :: e in Entries(fs) ==> e.lfhOffset <= |Locals(fs)|
  {
    hide LocalRecord;
    if fs != [] {
      OffsetsInLocals(fs[..|fs| - 1]);
    }
  }

  lemma {:induction false} DirectoryBound(es: seq<CentralEntry>)
    ensures |es| <= |Directory(es)|
  {
    hide CentralValues, CentralExtra;
    if es != [] {
      DirectoryBound(es[..|es| - 1]);
      CentralSize();
    }
  }
}
