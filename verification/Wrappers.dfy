/** What a call may give back. */
module Wrappers {
  datatype Option<+T> = None | Some(value: T)

  datatype Result<+T, +E> = Ok(value: T) | Err(error: E)

  /** What an error means to a run: the filesystem can take no more rewrites, the
      extent changed while it was read, its file was written to, or anything else. */
  datatype Fault = Fatal | ChangedSince | InvalidData | Other
}
