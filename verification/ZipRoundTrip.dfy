/** What a reader recovers from the writer's archives, and exactly when. */
module ZipRoundTrip {
  import opened Bytes
  import opened Common
  import opened ZipFormat
  import opened ZipReader

  // ---- Extra fields -----------------------------------------------------------------

  lemma ExtraFound(id: u16, data: seq<byte>)
    requires |data| < U16_LIMIT
    ensures FindExtra(LE(2, id) + LE(2, |data|) + data, id) == Some(data)
  {
    var extra := LE(2, id) + LE(2, |data|) + data;
    Pow256Values();
    LERoundTrip(2, id);
    LERoundTrip(2, |data|);
    assert extra[..2] == LE(2, id) && extra[2..4] == LE(2, |data|) && extra[4..4 + |data|] == data;
  }

  /** With every field a sentinel, decoding needs 8 bytes for each. */
  lemma {:induction false} TakeAllWide(n: nat, data: seq<byte>)
    ensures TakeWide(seq(n, _ => U32_MAX), data).Some? <==> |data| >= 8 * n
    decreases n
  {
    if n > 0 {
      assert seq(n, _ => U32_MAX)[1..] == seq(n - 1, _ => U32_MAX);
      if |data| >= 8 {
        TakeAllWide(n - 1, data[8..]);
      }
    }
  }

  lemma TakeOne(fields: seq<nat>, data: seq<byte>, v: u64, rest: seq<byte>, out: seq<nat>)
    requires fields != [] && fields[0] == U32_MAX && data == LE(8, v) + rest
    requires TakeWide(fields[1..], rest) == Some(out)
    ensures TakeWide(fields, data) == Some([v] + out)
  {
    Pow256Values();
    LERoundTrip(8, v);
    assert data[..8] == LE(8, v) && data[8..] == rest;
  }

  lemma TakeTwo(a: u64, b: u64)
    ensures TakeWide([U32_MAX, U32_MAX], LE(8, a) + LE(8, b)) == Some([a, b])
  {
    TakeOne([U32_MAX], LE(8, b), b, [], []);
    assert [U32_MAX, U32_MAX][1..] == [U32_MAX] && [b] + [] == [b];
    TakeOne([U32_MAX, U32_MAX], LE(8, a) + LE(8, b), a, LE(8, b), [b]);
    assert [a] + [b] == [a, b];
  }

  lemma TakeThree(a: u64, b: u64, c: u64)
    ensures TakeWide([U32_MAX, U32_MAX, U32_MAX], LE(8, a) + LE(8, b) + LE(8, c)) == Some([a, b, c])
  {
    hide LE;
    TakeTwo(b, c);
    assert LE(8, a) + LE(8, b) + LE(8, c) == LE(8, a) + (LE(8, b) + LE(8, c));
    assert [U32_MAX, U32_MAX, U32_MAX][1..] == [U32_MAX, U32_MAX];
    TakeOne([U32_MAX, U32_MAX, U32_MAX], LE(8, a) + LE(8, b) + LE(8, c), a, LE(8, b) + LE(8, c), [b, c]);
    assert [a] + [b, c] == [a, b, c];
  }

  // ---- Local headers: every size decodes --------------------------------------------------

  lemma LocalFits(e: CentralEntry)
    ensures Fits(LOCAL_WIDTHS, LocalValues(e))
  {
    Pow256Values();
  }

  lemma ResolveLocal(e: CentralEntry)
    ensures Resolve([Narrow(e, e.uncompressed), Narrow(e, e.compressed)], LocalExtra(e))
            == Some([e.uncompressed, e.compressed])
  {
    if NeedsZip64(e) {
      var data := LE(8, e.uncompressed) + LE(8, e.compressed);
      assert LocalExtra(e) == LE(2, EXTRA_ID_ZIP64) + LE(2, |data|) + data;
      ExtraFound(EXTRA_ID_ZIP64, data);
      TakeTwo(e.uncompressed, e.compressed);
    }
  }

  /** A sentinel appears exactly in the entries that need Zip64, and then in every field. */
  lemma SentinelFields(e: CentralEntry)
    ensures Narrow(e, e.uncompressed) == SENTINEL32 <==> NeedsZip64(e)
    ensures Narrow(e, e.compressed) == SENTINEL32 <==> NeedsZip64(e)
    ensures Narrow(e, e.lfhOffset) == SENTINEL32 <==> NeedsZip64(e)
  {
  }

  function LocalInfoOf(e: CentralEntry, dataStart: nat): LocalInfo {
    LocalInfo(e.name, if NeedsZip64(e) then NEEDS_ZIP64 else NEEDS_DEFLATE, e.zipMethod, e.modTime, e.modDate, e.crc32,
              e.compressed, e.uncompressed, dataStart)
  }

  lemma LocalFieldValues(e: CentralEntry) returns (v: seq<nat>)
    ensures v == LocalValues(e) && |v| == 11
    ensures v[0] == LFH_SIGNATURE && v[1] == (if NeedsZip64(e) then 45 else 20) && v[2] == 0
    ensures v[3] == e.zipMethod && v[4] == e.modTime && v[5] == e.modDate
    ensures v[6] == e.crc32 && v[7] == Narrow(e, e.compressed) && v[8] == Narrow(e, e.uncompressed)
    ensures v[9] == |e.name| % U16_LIMIT && v[10] == |LocalExtra(e)|
  {
    v := LocalValues(e);
  }

  lemma LocalPieces(buf: seq<byte>, pos: nat, e: CentralEntry)
    requires At(buf, pos, LocalHeader(e))
    ensures |LOCAL_WIDTHS| == 11 && Width(LOCAL_WIDTHS, 11) == 30
    ensures |LocalHeader(e)| == 30 + |e.name| + |LocalExtra(e)|
    ensures pos + 30 + |e.name| + |LocalExtra(e)| <= |buf|
    ensures Piece(buf, pos + 30, |e.name|) == e.name
    ensures Piece(buf, pos + 30 + |e.name|, |LocalExtra(e)|) == LocalExtra(e)
    ensures ReadRecord(buf, pos, LOCAL_WIDTHS) == LocalValues(e)
  {
    hide LocalValues, LocalExtra, ReadRecord;
    LocalSize();
    var fixed := Record(LOCAL_WIDTHS, LocalValues(e));
    AtSplit(buf, pos, fixed + e.name, LocalExtra(e));
    AtSplit(buf, pos, fixed, e.name);
    LocalFits(e);
    ReadBack(buf, pos, LOCAL_WIDTHS, LocalValues(e));
  }

  /** A local header is read back for all 64-bit sizes. */
  lemma ReadLocalBack(buf: seq<byte>, pos: nat, e: CentralEntry)
    requires At(buf, pos, LocalHeader(e)) && |e.name| <= U16_MAX
    ensures ReadLocal(buf, pos) == Some(LocalInfoOf(e, pos + |LocalHeader(e)|))
    ensures StartsWith(buf, pos, LFH_SIGNATURE)
  {
    hide LocalValues, LocalExtra, LocalHeader, Resolve, Narrow, ReadRecord, Width, At, Piece, StartsWith;
    LocalPieces(buf, pos, e);
    var v := LocalFieldValues(e);
    SentinelFields(e);
    ResolveLocal(e);
    LocalSize();
    SignatureRead(buf, pos, LOCAL_WIDTHS);
  }

  lemma SignatureRead(buf: seq<byte>, pos: nat, ws: seq<nat>)
    requires ws != [] && ws[0] == 4 && pos + Width(ws, |ws|) <= |buf|
    ensures StartsWith(buf, pos, ReadRecord(buf, pos, ws)[0])
  {
    hide FromLE;
    WidthMonotone(ws, 1, |ws|);
    assert Width(ws, 0) == 0 && Width(ws, 1) == 4;
    assert ReadRecord(buf, pos, ws)[0] == FieldAt(buf, pos, ws, 0);
  }

  // ---- Central headers: decodable exactly when none or all fields overflow ----------------------

  /** None or all of the three 64-bit fields overflow their 32-bit slots. */
  predicate NoneOrAll(e: CentralEntry) {
    || (e.compressed < SENTINEL32 && e.uncompressed < SENTINEL32 && e.lfhOffset < SENTINEL32)
    || (e.compressed >= SENTINEL32 && e.uncompressed >= SENTINEL32 && e.lfhOffset >= SENTINEL32)
  }

  function CentralInfoOf(e: CentralEntry): CentralInfo {
    var version := if NeedsZip64(e) then NEEDS_ZIP64 else NEEDS_DEFLATE;
    CentralInfo(e.name, version, version, e.zipMethod, e.modTime, e.modDate, e.crc32, e.compressed, e.uncompressed,
                0, 0, e.lfhOffset)
  }

  lemma FitsAppend(ws1: seq<nat>, vs1: seq<nat>, ws2: seq<nat>, vs2: seq<nat>)
    requires Fits(ws1, vs1) && Fits(ws2, vs2)
    ensures Fits(ws1 + ws2, vs1 + vs2)
  {
  }

  lemma CentralFits(e: CentralEntry)
    ensures Fits(CENTRAL_WIDTHS, CentralValues(e))
  {
    Pow256Values();
    var first := [CDH_SIGNATURE, Version(e), Version(e), 0, e.zipMethod, e.modTime, e.modDate, e.crc32];
    var last := [Narrow(e, e.compressed), Narrow(e, e.uncompressed), |e.name| % U16_LIMIT, |CentralExtra(e)|,
                 0, 0, 0, 0, Narrow(e, e.lfhOffset)];
    FitsAppend([4, 2, 2, 2, 2, 2, 2, 4], first, [4, 4, 2, 2, 2, 2, 2, 4, 4], last);
  }

  lemma ResolveCentral(e: CentralEntry)
    requires e.lfhOffset < U64_LIMIT
    ensures var r := Resolve([Narrow(e, e.uncompressed), Narrow(e, e.compressed), Narrow(e, e.lfhOffset)],
                             CentralExtra(e));
            if NoneOrAll(e) then r == Some([e.uncompressed, e.compressed, e.lfhOffset]) else r == None
  {
    if NeedsZip64(e) {
      ExtraFound(EXTRA_ID_ZIP64, WideFields(e));
      if NoneOrAll(e) {
        TakeThree(e.uncompressed, e.compressed, e.lfhOffset);
      } else {
        assert |WideFields(e)| < 24;
        assert seq(3, _ => U32_MAX) == [U32_MAX, U32_MAX, U32_MAX];
        TakeAllWide(3, WideFields(e));
      }
    }
  }

  lemma CentralFieldValues(e: CentralEntry) returns (v: seq<nat>)
    ensures v == CentralValues(e) && |v| == 17
    ensures v[0] == CDH_SIGNATURE && v[1] == v[2] == (if NeedsZip64(e) then 45 else 20) && v[3] == 0
    ensures v[4] == e.zipMethod && v[5] == e.modTime && v[6] == e.modDate
    ensures v[7] == e.crc32 && v[8] == Narrow(e, e.compressed) && v[9] == Narrow(e, e.uncompressed)
    ensures v[10] == |e.name| % U16_LIMIT && v[11] == |CentralExtra(e)| && v[12] == 0
    ensures v[13] == 0 && v[14] == 0 && v[15] == 0 && v[16] == Narrow(e, e.lfhOffset)
  {
    v := CentralValues(e);
  }

  lemma CentralPieces(buf: seq<byte>, pos: nat, e: CentralEntry)
    requires At(buf, pos, CentralHeader(e))
    ensures |CENTRAL_WIDTHS| == 17 && Width(CENTRAL_WIDTHS, 17) == 46
    ensures |CentralHeader(e)| == 46 + |e.name| + |CentralExtra(e)|
    ensures pos + 46 + |e.name| + |CentralExtra(e)| <= |buf|
    ensures Piece(buf, pos + 46, |e.name|) == e.name
    ensures Piece(buf, pos + 46 + |e.name|, |CentralExtra(e)|) == CentralExtra(e)
    ensures ReadRecord(buf, pos, CENTRAL_WIDTHS) == CentralValues(e)
  {
    hide CentralValues, CentralExtra, ReadRecord;
    CentralSize();
    var fixed := Record(CENTRAL_WIDTHS, CentralValues(e));
    AtSplit(buf, pos, fixed + e.name, CentralExtra(e));
    AtSplit(buf, pos, fixed, e.name);
    CentralFits(e);
    ReadBack(buf, pos, CENTRAL_WIDTHS, CentralValues(e));
  }

  /** Exact decodability of a central header. */
  lemma ReadCentralBack(buf: seq<byte>, pos: nat, e: CentralEntry)
    requires At(buf, pos, CentralHeader(e)) && |e.name| <= U16_MAX && e.lfhOffset < U64_LIMIT
    ensures ReadCentral(buf, pos)
            == if NoneOrAll(e) then Some((CentralInfoOf(e), pos + |CentralHeader(e)|)) else None
  {
    hide CentralValues, CentralExtra, CentralHeader, Resolve, Narrow, ReadRecord, NoneOrAll, Width, At, Piece;
    CentralPieces(buf, pos, e);
    var v := CentralFieldValues(e);
    SentinelFields(e);
    ResolveCentral(e);
  }

  /** No reader can do better: a mixed entry shares its bytes with a different entry. */
  lemma MixedEntriesAreAmbiguous(e: CentralEntry) returns (twin: CentralEntry)
    requires !NoneOrAll(e)
    ensures twin != e && CentralHeader(twin) == CentralHeader(e)
  {
    twin := if e.compressed < U32_MAX then e.(compressed := (e.compressed + 1) % U32_MAX)
            else if e.uncompressed < U32_MAX then e.(uncompressed := (e.uncompressed + 1) % U32_MAX)
            else e.(lfhOffset := (e.lfhOffset + 1) % U32_MAX);
    assert WideFields(twin) == WideFields(e);
  }

  // ---- Positions of the records in an archive --------------------------------------------------

  lemma {:induction false} LocalsAt(fs: seq<PreparedFile>, k: nat)
    requires k < |fs|
    ensures At(Locals(fs), |Locals(fs[..k])|, LocalRecord(fs[k], |Locals(fs[..k])|))
    ensures |Locals(fs[..k + 1])| == |Locals(fs[..k])| + |LocalRecord(fs[k], |Locals(fs[..k])|)|
    ensures Entries(fs)[k] == EntryOf(fs[k], |Locals(fs[..k])|)
    decreases |fs|
  {
    hide LocalRecord;
    var init := fs[..|fs| - 1];
    if k == |fs| - 1 {
      assert fs[..k] == init && fs[..k + 1] == fs;
    } else {
      LocalsAt(init, k);
      assert init[..k] == fs[..k] && init[..k + 1] == fs[..k + 1];
      AtSub(Locals(fs), 0, Locals(init), |Locals(fs[..k])|, LocalRecord(fs[k], |Locals(fs[..k])|));
    }
  }

  lemma {:induction false} DirectoryAt(es: seq<CentralEntry>, k: nat)
    requires k < |es|
    ensures At(Directory(es), |Directory(es[..k])|, CentralHeader(es[k]))
    ensures |Directory(es[..k + 1])| == |Directory(es[..k])| + |CentralHeader(es[k])|
    decreases |es|
  {
    hide CentralHeader;
    var init := es[..|es| - 1];
    if k == |es| - 1 {
      assert es[..k] == init && es[..k + 1] == es;
    } else {
      DirectoryAt(init, k);
      assert init[..k] == es[..k] && init[..k + 1] == es[..k + 1];
      AtSub(Directory(es), 0, Directory(init), |Directory(es[..k])|, CentralHeader(es[k]));
    }
  }

  // ---- The files as a reader should see them ------------------------------------------------------

  function ExpectedOf(f: PreparedFile): Extracted {
    Extracted(Sanitised(f.entry.archivePath), METHOD_DEFLATED, f.entry.dosTime, f.entry.dosDate, f.fileCrc32,
              f.compressed, f.uncompressed, Payload(f.blocks))
  }

  function Expected(fs: seq<PreparedFile>): (xs: seq<Extracted>)
    ensures |xs| == |fs| && forall k :: 0 <= k < |fs| ==> xs[k] == ExpectedOf(fs[k])
  {
    seq(|fs|, k requires 0 <= k < |fs| => ExpectedOf(fs[k]))
  }

  predicate NameFits(f: PreparedFile) {
    |Sanitised(f.entry.archivePath)| <= U16_MAX
  }

  /** What assembling establishes: the declared size is the size of the payload. */
  predicate SizesAgree(fs: seq<PreparedFile>) {
    forall f :: f in fs ==> f.compressed == |Payload(f.blocks)|
  }

  lemma ExtractBack(buf: seq<byte>, fs: seq<PreparedFile>, k: nat)
    requires k < |fs| && At(buf, 0, Locals(fs)) && SizesAgree(fs) && NameFits(fs[k])
    ensures var pos := |Locals(fs[..k])|;
            && ReadLocal(buf, pos).Some?
            && ReadLocal(buf, pos).value.dataStart + fs[k].compressed == |Locals(fs[..k + 1])| <= |buf|
            && ExtractAt(buf, pos) == Some(ExpectedOf(fs[k]))
            && StartsWith(buf, pos, LFH_SIGNATURE) && pos < |Locals(fs[..k + 1])|
  {
    hide LocalHeader, ReadLocal, Locals, StartsWith, LocalExtra, Payload;
    var f, pos := fs[k], |Locals(fs[..k])|;
    var e := EntryOf(f, pos);
    LocalsAt(fs, k);
    AtSub(buf, 0, Locals(fs), pos, LocalRecord(f, pos));
    AtSplit(buf, pos, LocalHeader(e), Payload(f.blocks));
    ReadLocalBack(buf, pos, e);
    LocalPieces(buf, pos, e);
  }

  // ---- Front to back ---------------------------------------------------------------------------

  lemma {:induction false} ScanBack(buf: seq<byte>, fs: seq<PreparedFile>, k: nat)
    requires k <= |fs| && At(buf, 0, Locals(fs)) && SizesAgree(fs)
    requires (forall f :: f in fs ==> NameFits(f)) && !StartsWith(buf, |Locals(fs)|, LFH_SIGNATURE)
    ensures ScanLocals(buf, |Locals(fs[..k])|) == Some((Expected(fs)[k..], |Locals(fs)|))
    decreases |fs| - k
  {
    hide Locals, ReadLocal, StartsWith, At;
    if k == |fs| {
      assert fs[..k] == fs && Expected(fs)[k..] == [];
    } else {
      ExtractBack(buf, fs, k);
      ScanBack(buf, fs, k + 1);
      assert Expected(fs)[k..] == [ExpectedOf(fs[k])] + Expected(fs)[k + 1..];
    }
  }

  // ---- Central directory -------------------------------------------------------------------------

  function Infos(es: seq<CentralEntry>): (xs: seq<CentralInfo>)
    ensures |xs| == |es| && forall k :: 0 <= k < |es| ==> xs[k] == CentralInfoOf(es[k])
  {
    seq(|es|, k requires 0 <= k < |es| => CentralInfoOf(es[k]))
  }

  predicate AllDecodable(es: seq<CentralEntry>) {
    forall e :: e in es ==> NoneOrAll(e)
  }

  lemma DecodableFrom(es: seq<CentralEntry>, k: nat)
    requires k < |es|
    ensures AllDecodable(es[k..]) <==> NoneOrAll(es[k]) && AllDecodable(es[k + 1..])
  {
    hide NoneOrAll;
    assert es[k..] == [es[k]] + es[k + 1..];
  }

  lemma NothingToDecode()
    ensures AllDecodable([])
  {
  }

  lemma Suffix<T>(xs: seq<T>, k: nat)
    requires k < |xs|
    ensures xs[k..] == [xs[k]] + xs[k + 1..] && xs[k..] != [] && xs[k..][0] == xs[k] && xs[k..][1..] == xs[k + 1..]
  {
  }

  lemma {:induction false} DirectoryBack(buf: seq<byte>, base: nat, es: seq<CentralEntry>, k: nat)
    requires k <= |es| && At(buf, base, Directory(es))
    requires forall e :: e in es ==> |e.name| <= U16_MAX && e.lfhOffset < U64_LIMIT
    ensures ReadDirectory(buf, base + |Directory(es[..k])|, |es| - k)
            == if AllDecodable(es[k..]) then Some((Infos(es)[k..], base + |Directory(es)|)) else None
    decreases |es| - k
  {
    hide Directory, ReadCentral, CentralHeader, At, NoneOrAll, AllDecodable;
    if k == |es| {
      assert es[..k] == es && es[k..] == [] && Infos(es)[k..] == [];
      NothingToDecode();
    } else {
      DirectoryAt(es, k);
      AtSub(buf, base, Directory(es), |Directory(es[..k])|, CentralHeader(es[k]));
      ReadCentralBack(buf, base + |Directory(es[..k])|, es[k]);
      DirectoryBack(buf, base, es, k + 1);
      DecodableFrom(es, k);
      Suffix(Infos(es), k);
    }
  }

  lemma {:induction false} ExtractAllBack(buf: seq<byte>, fs: seq<PreparedFile>, k: nat)
    requires k <= |fs| && At(buf, 0, Locals(fs)) && SizesAgree(fs) && forall f :: f in fs ==> NameFits(f)
    ensures ExtractAll(buf, Infos(Entries(fs))[k..]) == Some(Expected(fs)[k..])
    decreases |fs| - k
  {
    hide Locals, Entries, ExtractAt, At;
    if k < |fs| {
      LocalsAt(fs, k);
      ExtractBack(buf, fs, k);
      ExtractAllBack(buf, fs, k + 1);
      Suffix(Infos(Entries(fs)), k);
      Suffix(Expected(fs), k);
    }
  }

  // ---- End records ------------------------------------------------------------------------------

  lemma EndFits(zip64: bool, count: nat, size: nat, offset: nat)
    ensures Fits(EOCD_WIDTHS, EndValues(zip64, count, size, offset))
  {
    Pow256Values();
  }

  lemma Zip64EndFits(count: u64, size: u64, offset: u64)
    ensures Fits(ZIP64_EOCD_WIDTHS, Zip64EndValues(count, size, offset))
  {
    Pow256Values();
  }

  lemma LocatorFits(at: u64)
    ensures Fits(LOCATOR_WIDTHS, LocatorValues(at))
  {
    Pow256Values();
  }

  lemma ReadZip64EndBack(buf: seq<byte>, count: nat, size: nat, offset: nat)
    requires At(buf, offset + size, Zip64End(true, count, size, offset))
    requires count < U64_LIMIT && offset + size < U64_LIMIT
    ensures ReadZip64End(buf, offset + size + 76) == Some(EndInfo(count, size, offset, true, NEEDS_ZIP64))
  {
    hide Record, ReadRecord;
    Zip64EndSize();
    LocatorSize();
    var at := offset + size;
    var r, l := Zip64EndValues(count, size, offset), LocatorValues(at);
    AtSplit(buf, at, Record(ZIP64_EOCD_WIDTHS, r), Record(LOCATOR_WIDTHS, l));
    Zip64EndFits(count, size, offset);
    ReadBack(buf, at, ZIP64_EOCD_WIDTHS, r);
    LocatorFits(at);
    ReadBack(buf, at + 56, LOCATOR_WIDTHS, l);
  }

  /** Sentinel soundness: the reader follows the Zip64 records exactly when they were written,
      and recovers count, size and offset exactly, whatever their values. */
  lemma ReadEndBack(buf: seq<byte>, zip64: bool, count: nat, size: nat, offset: nat)
    requires At(buf, offset + size, EndOfDirectory(zip64, count, size, offset))
    requires |buf| == offset + size + |EndOfDirectory(zip64, count, size, offset)|
    requires count < U64_LIMIT && offset + size < U64_LIMIT
    requires !zip64 ==> count < U16_MAX && size < U32_MAX && offset < U32_MAX
    ensures ReadEnd(buf) == Some(EndInfo(count, size, offset, zip64, if zip64 then NEEDS_ZIP64 else 0))
  {
    hide Record, ReadRecord, ReadZip64End;
    EndSize();
    Zip64EndSize();
    LocatorSize();
    var z, v := Zip64End(zip64, count, size, offset), EndValues(zip64, count, size, offset);
    AtSplit(buf, offset + size, z, Record(EOCD_WIDTHS, v));
    EndFits(zip64, count, size, offset);
    ReadBack(buf, |buf| - 22, EOCD_WIDTHS, v);
    assert FindEnd(buf, |buf| - 22) == Some(|buf| - 22);
    if zip64 {
      ReadZip64EndBack(buf, count, size, offset);
    }
  }

  // ---- Whole archives ------------------------------------------------------------------------------

  lemma ArchiveParts(fs: seq<PreparedFile>)
    ensures var es, buf := Entries(fs), Archive(fs);
            var l, d := |Locals(fs)|, |Directory(es)|;
            var end := EndOfDirectory(UsesZip64(es, d, l), |es|, d, l);
            && At(buf, 0, Locals(fs)) && At(buf, l, Directory(es)) && At(buf, l + d, end)
            && |buf| == l + d + |end|
  {
    hide Locals, Directory, EndOfDirectory, Entries, UsesZip64;
    var es := Entries(fs);
    var locals, directory := Locals(fs), Directory(es);
    ThreeParts(locals, directory,
               EndOfDirectory(UsesZip64(es, |directory|, |locals|), |es|, |directory|, |locals|));
  }

  lemma ThreeParts(a: seq<byte>, b: seq<byte>, c: seq<byte>)
    ensures At(a + b + c, 0, a) && At(a + b + c, |a|, b) && At(a + b + c, |a| + |b|, c)
  {
  }

  lemma SignatureAfterLocals(fs: seq<PreparedFile>)
    ensures !StartsWith(Archive(fs), |Locals(fs)|, LFH_SIGNATURE)
  {
    hide Locals, Record, ReadRecord, StartsWith, Archive, UsesZip64;
    var es, buf := Entries(fs), Archive(fs);
    var l, d := |Locals(fs)|, |Directory(es)|;
    ArchiveParts(fs);
    if es != [] {
      FirstCentralSignature(buf, l, es);
    } else {
      var zip64 := UsesZip64(es, d, l);
      FirstEndSignature(buf, l, zip64, d);
    }
  }

  lemma OneSignature(buf: seq<byte>, pos: nat, a: nat, b: nat)
    requires StartsWith(buf, pos, a) && a != b
    ensures !StartsWith(buf, pos, b)
  {
  }

  lemma FirstCentralSignature(buf: seq<byte>, pos: nat, es: seq<CentralEntry>)
    requires es != [] && At(buf, pos, Directory(es))
    ensures !StartsWith(buf, pos, LFH_SIGNATURE)
  {
    hide CentralHeader, ReadRecord, StartsWith, Directory;
    DirectoryAt(es, 0);
    assert es[..0] == [];
    DirectoryOfNone();
    AtSub(buf, pos, Directory(es), 0, CentralHeader(es[0]));
    CentralPieces(buf, pos, es[0]);
    var v := CentralFieldValues(es[0]);
    SignatureRead(buf, pos, CENTRAL_WIDTHS);
    OneSignature(buf, pos, CDH_SIGNATURE, LFH_SIGNATURE);
  }

  lemma DirectoryOfNone()
    ensures Directory([]) == []
  {
  }

  lemma FirstEndSignature(buf: seq<byte>, pos: nat, zip64: bool, size: nat)
    requires size == 0 && At(buf, pos, EndOfDirectory(zip64, 0, size, pos))
    ensures !StartsWith(buf, pos, LFH_SIGNATURE)
  {
    hide Record, ReadRecord, StartsWith, At;
    EndSize();
    Zip64EndSize();
    LocatorSize();
    var z, v := Zip64End(zip64, 0, size, pos), EndValues(zip64, 0, size, pos);
    AtSplit(buf, pos, z, Record(EOCD_WIDTHS, v));
    if zip64 {
      FirstField(buf, pos, ZIP64_EOCD_WIDTHS, Zip64EndValues(0, size, pos), Record(LOCATOR_WIDTHS, LocatorValues(pos)));
      OneSignature(buf, pos, ZIP64_EOCD_SIGNATURE, LFH_SIGNATURE);
    } else {
      assert Record(EOCD_WIDTHS, v) + [] == Record(EOCD_WIDTHS, v);
      FirstField(buf, pos, EOCD_WIDTHS, v, []);
      OneSignature(buf, pos, EOCD_SIGNATURE, LFH_SIGNATURE);
    }
  }

  /** The first field of a record can be read whatever the later fields hold. */
  lemma FirstField(buf: seq<byte>, pos: nat, ws: seq<nat>, vs: seq<nat>, rest: seq<byte>)
    requires ws != [] && |ws| == |vs| && ws[0] == 4 && vs[0] < U32_LIMIT
    requires At(buf, pos, Record(ws, vs) + rest)
    ensures StartsWith(buf, pos, vs[0])
  {
    AtSplit(buf, pos, Record(ws, vs), rest);
    FieldInEncode(ws, vs, 0, |ws|);
    AtSub(buf, pos, Record(ws, vs), 0, LE(4, vs[0]));
    Pow256Values();
    LERoundTrip(4, vs[0]);
  }

  // ---- Names longer than a reader can see -----------------------------------------------------------

  lemma LocalNameBound(buf: seq<byte>, pos: nat)
    requires ReadLocal(buf, pos).Some?
    ensures |ReadLocal(buf, pos).value.name| <= U16_MAX
  {
    hide Resolve, Width;
    Pow256Values();
    assert LOCAL_WIDTHS[9] == 2;
    assert ReadRecord(buf, pos, LOCAL_WIDTHS)[9] < Pow256(LOCAL_WIDTHS[9]);
  }

  ghost predicate NamesBounded(xs: seq<Extracted>) {
    forall x :: x in xs ==> |x.name| <= U16_MAX
  }

  lemma {:induction false} ScanNames(buf: seq<byte>, pos: nat)
    requires ScanLocals(buf, pos).Some?
    ensures NamesBounded(ScanLocals(buf, pos).value.0)
    decreases |buf| - pos
  {
    hide ReadLocal, StartsWith;
    if StartsWith(buf, pos, LFH_SIGNATURE) {
      LocalNameBound(buf, pos);
      var l := ReadLocal(buf, pos).value;
      ScanNames(buf, l.dataStart + l.compressed);
    }
  }

  lemma {:induction false} ExtractAllNames(buf: seq<byte>, infos: seq<CentralInfo>)
    requires ExtractAll(buf, infos).Some?
    ensures NamesBounded(ExtractAll(buf, infos).value)
    decreases |infos|
  {
    hide ReadLocal;
    if infos != [] {
      LocalNameBound(buf, infos[0].lfhOffset);
      ExtractAllNames(buf, infos[1..]);
    }
  }

  lemma ExpectedNames(fs: seq<PreparedFile>)
    ensures NamesBounded(Expected(fs)) <==> forall f :: f in fs ==> NameFits(f)
  {
    var xs := Expected(fs);
    if NamesBounded(xs) {
      forall f | f in fs ensures NameFits(f) {
        var k :| 0 <= k < |fs| && fs[k] == f;
        assert xs[k] in xs;
      }
    }
    if forall f :: f in fs ==> NameFits(f) {
      forall x | x in xs ensures |x.name| <= U16_MAX {
        var k :| 0 <= k < |xs| && xs[k] == x;
        assert NameFits(fs[k]);
      }
    }
  }

  // ---- The two readers, for every archive the writer can produce --------------------------------------

  /** Files as a job hands them over, in an archive below the 64-bit size limit. */
  predicate Storable(fs: seq<PreparedFile>) {
    SizesAgree(fs) && |Archive(fs)| < U64_LIMIT
  }

  /** Scanning local headers from offset 0 recovers every entry, for all sizes, exactly
      when every name fits its 16-bit length. */
  lemma FrontToBackRoundTrip(fs: seq<PreparedFile>)
    requires Storable(fs)
    ensures ScanLocals(Archive(fs), 0) == Some((Expected(fs), |Locals(fs)|))
            <==> forall f :: f in fs ==> NameFits(f)
  {
    hide Archive, ReadLocal, StartsWith, At;
    var buf := Archive(fs);
    ExpectedNames(fs);
    if forall f :: f in fs ==> NameFits(f) {
      ArchiveParts(fs);
      SignatureAfterLocals(fs);
      ScanBack(buf, fs, 0);
      assert fs[..0] == [] && Expected(fs)[0..] == Expected(fs);
    } else if ScanLocals(buf, 0).Some? {
      ScanNames(buf, 0);
    }
  }

  lemma EntriesInRange(fs: seq<PreparedFile>)
    ensures |Entries(fs)| <= |Archive(fs)| && |Locals(fs)| + |Directory(Entries(fs))| <= |Archive(fs)|
    ensures forall e :: e in Entries(fs) ==> e.lfhOffset <= |Locals(fs)|
    ensures (forall f :: f in fs ==> NameFits(f)) ==> forall e :: e in Entries(fs) ==> |e.name| <= U16_MAX
  {
    ArchiveParts(fs);
    OffsetsInLocals(fs);
    DirectoryBound(Entries(fs));
    if forall f :: f in fs ==> NameFits(f) {
      EntryNames(fs);
    }
  }

  lemma {:induction false} EntryNames(fs: seq<PreparedFile>)
    requires forall f :: f in fs ==> NameFits(f)
    ensures forall e :: e in Entries(fs) ==> |e.name| <= U16_MAX
  {
    hide LocalRecord;
    if fs != [] {
      var init := fs[..|fs| - 1];
      assert forall f :: f in init ==> f in fs;
      EntryNames(init);
      assert fs[|fs| - 1] in fs;
    }
  }

  /** The end record of an archive describes its directory. */
  lemma EndOfArchive(fs: seq<PreparedFile>)
    requires |Archive(fs)| < U64_LIMIT
    ensures ReadEnd(Archive(fs)).Some?
    ensures var end := ReadEnd(Archive(fs)).value;
            && end.count == |Entries(fs)| && end.size == |Directory(Entries(fs))| && end.offset == |Locals(fs)|
            && end.zip64 == UsesZip64(Entries(fs), |Directory(Entries(fs))|, |Locals(fs)|)
  {
    hide Locals, Directory, EndOfDirectory, ReadEnd, At, Archive, Entries;
    var es := Entries(fs);
    var l, d := |Locals(fs)|, |Directory(es)|;
    ArchiveParts(fs);
    EntriesInRange(fs);
    ReadEndBack(Archive(fs), UsesZip64(es, d, l), |es|, d, l);
  }

  lemma EndBytes(zip64: bool, count: nat, size: nat, offset: nat)
    ensures |EndOfDirectory(zip64, count, size, offset)| == if zip64 then 98 else 22
  {
    EndSize();
    Zip64EndSize();
    LocatorSize();
  }

  /** File `k` has a size or an offset that its 32-bit fields cannot hold. */
  predicate Wide(fs: seq<PreparedFile>, k: nat)
    requires k < |fs|
  {
    fs[k].compressed >= SENTINEL32 || fs[k].uncompressed >= SENTINEL32 || |Locals(fs[..k])| >= SENTINEL32
  }

  lemma AnyWide(fs: seq<PreparedFile>)
    ensures AnyZip64(Entries(fs)) <==> exists k :: 0 <= k < |fs| && Wide(fs, k)
  {
    hide Locals, Entries, LocalRecord;
    var es := Entries(fs);
    forall k | 0 <= k < |fs| ensures NeedsZip64(es[k]) <==> Wide(fs, k) {
      LocalsAt(fs, k);
    }
    if exists k :: 0 <= k < |fs| && Wide(fs, k) {
      var k :| 0 <= k < |fs| && Wide(fs, k);
      assert es[k] in es;
    }
  }

  /** An archive ends with the Zip64 records if and only if a count, size or offset needs them; every other
      archive ends with the 22-byte end record alone, and a reader without Zip64 finds its directory. */
  lemma Zip64Exactly(fs: seq<PreparedFile>)
    requires |Archive(fs)| < U64_LIMIT
    ensures ReadEnd(Archive(fs)).Some?
    ensures var size, offset := |Directory(Entries(fs))|, |Locals(fs)|;
            var wide := |fs| >= SENTINEL16 || size >= SENTINEL32 || offset >= SENTINEL32
                        || exists k :: 0 <= k < |fs| && Wide(fs, k);
            && ReadEnd(Archive(fs)).value.zip64 == wide
            && |Archive(fs)| == offset + size + if wide then 98 else 22
  {
    hide Locals, Directory, EndOfDirectory, ReadEnd, At, Archive, Entries, AnyZip64, Wide;
    var size, offset := |Directory(Entries(fs))|, |Locals(fs)|;
    ArchiveParts(fs);
    EndOfArchive(fs);
    AnyWide(fs);
    EndBytes(UsesZip64(Entries(fs), size, offset), |fs|, size, offset);
  }

  /** What the directory of an archive reads as, when its names fit. */
  lemma DirectoryOfArchive(fs: seq<PreparedFile>)
    requires |Archive(fs)| < U64_LIMIT && forall f :: f in fs ==> NameFits(f)
    ensures var es, buf := Entries(fs), Archive(fs);
            ReadDirectory(buf, |Locals(fs)|, |es|)
            == if AllDecodable(es) then Some((Infos(es), |Locals(fs)| + |Directory(es)|)) else None
  {
    hide Locals, Directory, EndOfDirectory, ReadDirectory, At, NoneOrAll, Archive, Entries, AllDecodable;
    var es := Entries(fs);
    ArchiveParts(fs);
    EntriesInRange(fs);
    DirectoryBack(Archive(fs), |Locals(fs)|, es, 0);
    DirectoryOfNone();
    assert es[..0] == [] && es[0..] == es && Infos(es)[0..] == Infos(es);
  }

  /** What the entries of an archive extract to. */
  lemma EntriesOfArchive(fs: seq<PreparedFile>)
    requires SizesAgree(fs) && forall f :: f in fs ==> NameFits(f)
    ensures ExtractAll(Archive(fs), Infos(Entries(fs))) == Some(Expected(fs))
  {
    hide Locals, Directory, EndOfDirectory, ExtractAll, At, Archive, Entries;
    ArchiveParts(fs);
    ExtractAllBack(Archive(fs), fs, 0);
    assert Infos(Entries(fs))[0..] == Infos(Entries(fs)) && Expected(fs)[0..] == Expected(fs);
  }

  /** A name that does not fit cannot come back from any directory. */
  lemma LongNamesLost(fs: seq<PreparedFile>)
    requires !(forall f :: f in fs ==> NameFits(f))
    ensures ReadArchive(Archive(fs)) != Some(Expected(fs))
  {
    hide Archive, ReadEnd, ExtractAll, ReadDirectory;
    var buf := Archive(fs);
    ExpectedNames(fs);
    if ReadArchive(buf).Some? {
      var end := ReadEnd(buf).value;
      ExtractAllNames(buf, ReadDirectory(buf, end.offset, end.count).value.0);
    }
  }

  /** Reading end record, directory and local headers recovers the files exactly when every
      name fits and no entry overflows only some of its three 64-bit fields. */
  lemma DirectoryRoundTrip(fs: seq<PreparedFile>)
    requires Storable(fs)
    ensures ReadArchive(Archive(fs)) == Some(Expected(fs))
            <==> (forall f :: f in fs ==> NameFits(f)) && AllDecodable(Entries(fs))
  {
    hide Archive, Locals, Directory, Entries, ReadEnd, ExtractAll, ReadDirectory, AllDecodable;
    if forall f :: f in fs ==> NameFits(f) {
      EndOfArchive(fs);
      DirectoryOfArchive(fs);
      EntriesOfArchive(fs);
    } else {
      LongNamesLost(fs);
    }
  }

  /** One entry with only some of its three fields overflowing makes the directory unreadable. */
  lemma MixedFileLost(fs: seq<PreparedFile>, k: nat)
    requires Storable(fs) && k < |fs| && !NoneOrAll(EntryOf(fs[k], |Locals(fs[..k])|))
    ensures ReadArchive(Archive(fs)) != Some(Expected(fs))
  {
    hide Archive, Locals, Entries, NoneOrAll, Storable;
    LocalsAt(fs, k);
    assert Entries(fs)[k] in Entries(fs);
    DirectoryRoundTrip(fs);
  }

  /** So a first file of 2^32 - 1 bytes or more, before or after compression, is never recovered through
      the directory: its offset is 0. */
  lemma LargeFirstFileLost(fs: seq<PreparedFile>)
    requires Storable(fs) && fs != [] && (fs[0].uncompressed >= U32_MAX || fs[0].compressed >= U32_MAX)
    ensures ReadArchive(Archive(fs)) != Some(Expected(fs))
  {
    hide Archive, Storable;
    assert fs[..0] == [] && Locals(fs[..0]) == [];
    MixedFileLost(fs, 0);
  }

  /** Neither is a file below that size whose record starts at or after it. */
  lemma LateSmallFileLost(fs: seq<PreparedFile>, k: nat)
    requires Storable(fs) && k < |fs| && |Locals(fs[..k])| >= U32_MAX
    requires fs[k].uncompressed < U32_MAX || fs[k].compressed < U32_MAX
    ensures ReadArchive(Archive(fs)) != Some(Expected(fs))
  {
    hide Archive, Storable, Locals;
    MixedFileLost(fs, k);
  }

  /** An archive whose sizes all stay below the sentinel is recovered when its names fit. */
  lemma SmallArchiveRecovered(fs: seq<PreparedFile>)
    requires Storable(fs) && |Archive(fs)| < U32_MAX
    requires forall f :: f in fs ==> NameFits(f) && f.uncompressed < U32_MAX && f.compressed < U32_MAX
    ensures ReadArchive(Archive(fs)) == Some(Expected(fs))
  {
    EntriesInRange(fs);
    hide Archive, Locals, Entries, Storable;
    forall e | e in Entries(fs) ensures NoneOrAll(e) {
      var k :| 0 <= k < |Entries(fs)| && Entries(fs)[k] == e;
      LocalsAt(fs, k);
    }
    DirectoryRoundTrip(fs);
  }
}
