/** Values that travel between the stages of a job. */
module Common {
  import opened Bytes

  datatype StatusCode =
    | Cancelled | InvalidArgument | NotFound | PermissionDenied | Io | OutOfMemory
    | CudaError | NvcompError | CodecError | FormatError | Unsupported | Internal

  datatype Error = Error(code: StatusCode, message: string)

  datatype Option<+T> = None | Some(value: T)

  datatype Result<+T> = Ok(value: T) | Err(error: Error)

  /** A result that carries no value. */
  datatype Outcome = Pass | Fail(error: Error)

  /** One slice of a file, as the reader delivers it. */
  datatype FileBlock = FileBlock(index: nat, isLast: bool, offset: nat, data: seq<byte>)

  /** One block after the codec; `crc32` and `uncompressed` describe its source. */
  datatype CompressedBlock = CompressedBlock(
    index: nat, isLast: bool, offset: nat, bytes: seq<byte>, crc32: u32, uncompressed: nat)

  /** A scanned input; modification times arrive already split into their encoded forms. */
  datatype FileEntry = FileEntry(
    archivePath: seq<byte>, sizeBytes: u64, dosTime: u16, dosDate: u16, unixTime: int)

  /** A file whose blocks are all compressed, ready for a writer. */
  datatype PreparedFile = PreparedFile(
    entry: FileEntry, blocks: seq<CompressedBlock>, fileCrc32: u32, uncompressed: u64, compressed: u64)

  /** The bytes a writer stores for the blocks, in order. */
  function Payload(blocks: seq<CompressedBlock>): seq<byte> {
    if blocks == [] then [] else Payload(blocks[..|blocks| - 1]) + blocks[|blocks| - 1].bytes
  }
}
