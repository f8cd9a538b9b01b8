/** Option and Result types shared by the whole model, plus the error codes the
    host filesystem primitives can raise (named after their POSIX errno). */
module Wrappers {

  datatype Option<+T> = None | Some(value: T)

  /** Errors raised by the filesystem primitives the library calls. */
  datatype FsError =
    | NoEntry          // ENOENT: a path (or the parent of a new path) does not exist
    | NotADirectory    // ENOTDIR: a directory was expected
    | IsADirectory     // EISDIR: a regular file was expected
    | NotEmpty         // ENOTEMPTY: rmdir on a directory that still has entries
    | AlreadyExists    // EEXIST: mkdir or symlink over an existing entry
    | TooManyLinks     // ELOOP: too many symbolic links followed
    | Busy             // EBUSY: the root directory cannot be removed

  /** The outcome of an operation that may be rejected by a primitive. */
  datatype Result<+T> = Ok(value: T) | Err(error: FsError)
}
