/**
 * What reading a whole file can report.  The source tells the cases apart by
 * testing the error's `code` against "ENOENT"; here the reader decides the
 * tag, and the handler matches on it.
 */
module NodeFs {

  newtype byte = x: int | 0 <= x < 256

  datatype ReadOutcome =
    | Ok(data: seq<byte>)      // the file's full contents
    | NotFound                 // the error code was "ENOENT"
    | Other(message: string)   // any other error, with its message

  /** `fs.readFile`, supplied by the caller: the outcome of reading a resolved file name. */
  type FileReader = string -> ReadOutcome
}
