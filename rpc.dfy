/**
 The small error taxonomy the handlers answer with, and the exact status
 messages each failure carries. The transport-level status object is reduced
 to its code and message.
 */
module Rpc {

  /** The status codes the tree handlers use. */
  datatype Code = NotFound | InvalidArgument

  datatype Status = Status(code: Code, message: string)

  /** Outcome of a handler that returns a value (get, list). */
  datatype Result<+R> = Ok(value: R) | Err(status: Status)

  /** Outcome of a handler whose success response is empty (write, mkdir). */
  datatype Outcome = Pass | Fail(status: Status)

  const NoSuchFile := Status(NotFound, "no such file")
  const NoSuchDirectory := Status(NotFound, "no such directory")
  const IllegalFilename := Status(InvalidArgument, "illegal filename")
  const IllegalDirname := Status(InvalidArgument, "illegal dirname")
  const CannotWriteToDirectory := Status(InvalidArgument, "cannot write to directory")
  const FileExists := Status(InvalidArgument, "file exists")
}
