/**
 * The request and response objects the daemon exchanges with its server.
 * Their JSON form is produced and read by a serialisation library and is
 * treated as opaque payload bytes by the frame codec.
 */
module Messages {
  import opened Wrappers
  import opened Frame

  /** An unsigned 64-bit integer (Rust's u64). */
  type U64 = x: nat | x < 0x1_0000_0000_0000_0000

  /** One filesystem request: the operation name, the path and its optional arguments. */
  datatype Request = Request(
    id: nat,
    operation: string,
    path: string,
    data: Option<seq<Byte>>,
    offset: Option<U64>,
    size: Option<U64>)

  /** File metadata as the server reports it; mtime is in milliseconds since the Unix epoch. */
  datatype FileStat = FileStat(size: U64, isFile: bool, isDir: bool, mtime: U64)

  /**
   * One response. Absent JSON fields take their defaults: empty data, zero
   * bytes written, no files, no stat, success false and an empty error.
   */
  datatype Response = Response(
    id: U64,
    data: seq<Byte>,
    bytesWritten: U64,
    files: seq<string>,
    stat: Option<FileStat>,
    success: bool,
    error: string)
}
