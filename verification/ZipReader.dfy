/**
 A reader written from the ZIP specification (APPNOTE sections 4.3.7, 4.3.12, 4.3.14, 4.3.15,
 4.3.16, 4.4 and 4.5.3), for archives on one disk, without encryption or data descriptors. It shares
 nothing with the writer but buffers and little-endian fields: signatures, field widths, sentinels,
 versions and method codes are its own.
 */
module ZipReader {
  import opened Bytes
  import opened Common
  import opened Crc32Model
  import opened Deflate

  const LOCAL_SIGNATURE: nat := 0x0403_4B50
  const CENTRAL_SIGNATURE: nat := 0x0201_4B50
  const END_SIGNATURE: nat := 0x0605_4B50
  const ZIP64_END_SIGNATURE: nat := 0x0606_4B50
  const LOCATOR_SIGNATURE: nat := 0x0706_4B50
  const ZIP64_EXTRA: nat := 0x0001

  // Section 4.4.5: compression methods.
  const METHOD_STORED: nat := 0
  const METHOD_DEFLATED: nat := 8

  // Section 4.4.3.2: versions needed to extract, in tenths; 4.5 is the newest this reader knows.
  const NEEDS_DEFLATE: nat := 20
  const NEEDS_ZIP64: nat := 45

  // Section 4.4.1.4: a field whose value is elsewhere.
  const SENTINEL16: nat := 0xFFFF
  const SENTINEL32: nat := 0xFFFF_FFFF

  // Field widths in bytes, in the order of the specification.
  const LOCAL_FIELDS: seq<nat> := [4, 2, 2, 2, 2, 2, 4, 4, 4, 2, 2]
  const CENTRAL_FIELDS: seq<nat> := [4, 2, 2, 2, 2, 2, 2, 4] + [4, 4, 2, 2, 2, 2, 2, 4, 4]
  const END_FIELDS: seq<nat> := [4, 2, 2, 2, 2, 4, 4, 2]
  const ZIP64_END_FIELDS: seq<nat> := [4, 8, 2, 2, 4, 4, 8, 8, 8, 8]
  const LOCATOR_FIELDS: seq<nat> := [4, 4, 8, 4]

  datatype LocalInfo = LocalInfo(
    name: seq<byte>, version: nat, zipMethod: nat, modTime: nat, modDate: nat, crc32: nat,
    compressed: nat, uncompressed: nat, dataStart: nat)

  datatype CentralInfo = CentralInfo(
    name: seq<byte>, madeBy: nat, version: nat, zipMethod: nat, modTime: nat, modDate: nat, crc32: nat,
    compressed: nat, uncompressed: nat, internalAttributes: nat, externalAttributes: nat, lfhOffset: nat)

  datatype Extracted = Extracted(
    name: seq<byte>, zipMethod: nat, modTime: nat, modDate: nat, crc32: nat,
    compressed: nat, uncompressed: nat, payload: seq<byte>)

  /** `madeBy` is the version in the Zip64 record, if there is one. */
  datatype EndInfo = EndInfo(count: nat, size: nat, offset: nat, zip64: bool, madeBy: nat)

  /** The version must cover what the entry uses, and be one this reader knows. */
  predicate Extractable(flags: nat, version: nat, zip64: bool) {
    flags == 0 && (if zip64 then NEEDS_ZIP64 else NEEDS_DEFLATE) <= version <= NEEDS_ZIP64
  }

  /** The data of an entry, by its method; size and checksum must agree. */
  function Decode(x: Extracted, inflate: Inflater): Option<seq<byte>> {
    var data := if x.zipMethod == METHOD_STORED then Some(x.payload)
                else if x.zipMethod == METHOD_DEFLATED then InflateAll(inflate, x.payload)
                else None;
    if data.Some? && |data.value| == x.uncompressed && Compute(data.value) == x.crc32 then data else None
  }

  /** Section 4.5.1: the data of the first extra record with the given header ID. */
  function FindExtra(extra: seq<byte>, id: nat): Option<seq<byte>>
    decreases |extra|
  {
    if |extra| < 4 then None
    else
      var size := FromLE(extra[2..4]);
      if 4 + size > |extra| then None
      else if FromLE(extra[..2]) == id then Some(extra[4..4 + size])
      else FindExtra(extra[4 + size..], id)
  }

  /** Section 4.5.3: each sentinel takes the next 8 bytes of the Zip64 data, in order. */
  function TakeWide(fields: seq<nat>, data: seq<byte>): Option<seq<nat>>
    decreases |fields|
  {
    if fields == [] then Some([])
    else if fields[0] != SENTINEL32 then
      match TakeWide(fields[1..], data)
      case None => None
      case Some(rest) => Some([fields[0]] + rest)
    else if |data| < 8 then None
    else
      match TakeWide(fields[1..], data[8..])
      case None => None
      case Some(rest) => Some([FromLE(data[..8])] + rest)
  }

  function Resolve(fields: seq<nat>, extra: seq<byte>): Option<seq<nat>> {
    if SENTINEL32 !in fields then Some(fields)
    else
      match FindExtra(extra, ZIP64_EXTRA)
      case None => None
      case Some(data) => TakeWide(fields, data)
  }

  function Piece(buf: seq<byte>, start: nat, len: nat): seq<byte>
    requires start + len <= |buf|
  {
    buf[start..start + len]
  }

  function ReadLocal(buf: seq<byte>, pos: nat): Option<LocalInfo> {
    if pos + Width(LOCAL_FIELDS, |LOCAL_FIELDS|) > |buf| then None
    else
      var v := ReadRecord(buf, pos, LOCAL_FIELDS);
      var nameAt := pos + Width(LOCAL_FIELDS, |LOCAL_FIELDS|);
      var extraAt := nameAt + v[9];
      if v[0] != LOCAL_SIGNATURE || extraAt + v[10] > |buf| then None
      else if !Extractable(v[2], v[1], SENTINEL32 in [v[8], v[7]]) then None
      else
        match Resolve([v[8], v[7]], Piece(buf, extraAt, v[10]))
        case None => None
        case Some(s) =>
          if |s| != 2 then None
          else
            Some(LocalInfo(Piece(buf, nameAt, v[9]), v[1], v[3], v[4], v[5], v[6], s[1], s[0], extraAt + v[10]))
  }

  /** An entry read at its local header; its payload follows the header. */
  function ExtractAt(buf: seq<byte>, pos: nat): Option<Extracted> {
    match ReadLocal(buf, pos)
    case None => None
    case Some(l) =>
      if l.dataStart + l.compressed > |buf| then None
      else
        Some(Extracted(l.name, l.zipMethod, l.modTime, l.modDate, l.crc32, l.compressed, l.uncompressed,
                       Piece(buf, l.dataStart, l.compressed)))
  }

  function StartsWith(buf: seq<byte>, pos: nat, signature: nat): bool {
    pos + 4 <= |buf| && FromLE(buf[pos..pos + 4]) == signature
  }

  /** Front to back: local entries from `pos` on, and where the first other record starts. */
  function ScanLocals(buf: seq<byte>, pos: nat): Option<(seq<Extracted>, nat)>
    decreases |buf| - pos
  {
    if !StartsWith(buf, pos, LOCAL_SIGNATURE) then Some(([], pos))
    else
      match ReadLocal(buf, pos)
      case None => None
      case Some(l) =>
        var next := l.dataStart + l.compressed;
        if next > |buf| || next <= pos then None
        else
          match ScanLocals(buf, next)
          case None => None
          case Some((rest, end)) =>
            Some(([Extracted(l.name, l.zipMethod, l.modTime, l.modDate, l.crc32, l.compressed, l.uncompressed,
                             Piece(buf, l.dataStart, l.compressed))] + rest, end))
  }

  function ReadCentral(buf: seq<byte>, pos: nat): Option<(CentralInfo, nat)> {
    if pos + Width(CENTRAL_FIELDS, |CENTRAL_FIELDS|) > |buf| then None
    else
      var v := ReadRecord(buf, pos, CENTRAL_FIELDS);
      var nameAt := pos + Width(CENTRAL_FIELDS, |CENTRAL_FIELDS|);
      var extraAt := nameAt + v[10];
      var next := extraAt + v[11] + v[12];
      if v[0] != CENTRAL_SIGNATURE || next > |buf| || v[13] != 0 then None
      else if !Extractable(v[3], v[2], SENTINEL32 in [v[9], v[8], v[16]]) then None
      else
        match Resolve([v[9], v[8], v[16]], Piece(buf, extraAt, v[11]))
        case None => None
        case Some(s) =>
          if |s| != 3 then None
          else
            Some((CentralInfo(Piece(buf, nameAt, v[10]), v[1], v[2], v[4], v[5], v[6], v[7], s[1], s[0],
                              v[14], v[15], s[2]), next))
  }

  function ReadDirectory(buf: seq<byte>, pos: nat, count: nat): Option<(seq<CentralInfo>, nat)>
    decreases count
  {
    if count == 0 then Some(([], pos))
    else
      match ReadCentral(buf, pos)
      case None => None
      case Some((info, next)) =>
        match ReadDirectory(buf, next, count - 1)
        case None => None
        case Some((rest, end)) => Some(([info] + rest, end))
  }

  /** Section 4.3.16: the end record is the last one whose comment reaches the end of the file. */
  function FindEnd(buf: seq<byte>, p: nat): Option<nat>
    requires p + Width(END_FIELDS, |END_FIELDS|) <= |buf|
  {
    var v := ReadRecord(buf, p, END_FIELDS);
    if v[0] == END_SIGNATURE && p + Width(END_FIELDS, |END_FIELDS|) + v[7] == |buf| then Some(p)
    else if p == 0 then None
    else FindEnd(buf, p - 1)
  }

  /** Sections 4.3.14 and 4.3.15: any sentinel sends the reader to the Zip64 record. */
  function ReadEnd(buf: seq<byte>): Option<EndInfo> {
    var fixed := Width(END_FIELDS, |END_FIELDS|);
    if |buf| < fixed then None
    else
      match FindEnd(buf, |buf| - fixed)
      case None => None
      case Some(p) =>
        if p + fixed > |buf| then None
        else
          var v := ReadRecord(buf, p, END_FIELDS);
          if v[1] != 0 || v[2] != 0 || v[3] != v[4] then None
          else if v[4] == SENTINEL16 || v[5] == SENTINEL32 || v[6] == SENTINEL32 then ReadZip64End(buf, p)
          else Some(EndInfo(v[4], v[5], v[6], false, 0))
  }

  /** The locator lies before the end record at `p`, and the Zip64 record reaches up to the locator. */
  function ReadZip64End(buf: seq<byte>, p: nat): Option<EndInfo>
    requires p <= |buf|
  {
    var locatorSize := Width(LOCATOR_FIELDS, |LOCATOR_FIELDS|);
    if p < locatorSize then None
    else
      var l := ReadRecord(buf, p - locatorSize, LOCATOR_FIELDS);
      if l[0] != LOCATOR_SIGNATURE || l[1] != 0 || l[3] != 1
         || l[2] + Width(ZIP64_END_FIELDS, |ZIP64_END_FIELDS|) > |buf| then None
      else
        var r := ReadRecord(buf, l[2], ZIP64_END_FIELDS);
        if r[0] != ZIP64_END_SIGNATURE || l[2] + 12 + r[1] != p - locatorSize || !Extractable(0, r[3], true)
           || r[4] != 0 || r[5] != 0 || r[6] != r[7] then None
        else Some(EndInfo(r[7], r[8], r[9], true, r[2]))
  }

  /** Each directory entry must agree with the local header it points at. */
  function ExtractAll(buf: seq<byte>, infos: seq<CentralInfo>): Option<seq<Extracted>>
    decreases |infos|
  {
    if infos == [] then Some([])
    else
      match ExtractAt(buf, infos[0].lfhOffset)
      case None => None
      case Some(x) =>
        var c := infos[0];
        if x != Extracted(c.name, c.zipMethod, c.modTime, c.modDate, c.crc32, c.compressed, c.uncompressed, x.payload)
        then None
        else
          match ExtractAll(buf, infos[1..])
          case None => None
          case Some(rest) => Some([x] + rest)
  }

  /** Directory driven: end record, central directory, then every local header. */
  function ReadArchive(buf: seq<byte>): Option<seq<Extracted>> {
    match ReadEnd(buf)
    case None => None
    case Some(end) =>
      match ReadDirectory(buf, end.offset, end.count)
      case None => None
      case Some((infos, stop)) =>
        if stop != end.offset + end.size then None else ExtractAll(buf, infos)
  }
}
