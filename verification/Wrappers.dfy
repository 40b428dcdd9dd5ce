/** Optional values and results with an error, as in the source language. */
module Wrappers {

  datatype Option<+T> = None | Some(value: T)

  datatype Result<+T, +E> = Ok(value: T) | Err(error: E)

  /** The error codes the models tell apart. */
  datatype Errno =
    | EFAULT | EINVAL | E2BIG | EBADF | ENOENT | ENOTDIR | EACCES | ENAMETOOLONG | ELOOP | EISDIR | EBUSY
    | Other(code: int)
}
