/** Error values reported by a file handle, and the Option/Result wrappers used to return them. */
module Errors {

  /** The errors of the handle, one constructor per Go error value it can return. */
  datatype Error =
    | EPERM                       // syscall.EPERM: mode, closed state or kind of handle forbids the call
    | EACCES                      // syscall.EACCES: a dirty handle without a staged copy
    | ERANGE                      // syscall.ERANGE: a negative offset given to WriteAt
    | OutOfRange                  // afero.ErrOutOfRange: a Seek target outside [0, size]
    | InvalidWhence(whence: int)  // the "invalid whence value" error of Seek
    | NotFound                    // the object store holds no object under the name
    | EOF                         // io.EOF: a read that found no byte to return
    | Io(code: nat)               // any other failure of the object store or of the staging filesystem

  datatype Option<+T> = None | Some(value: T)

  datatype Result<+T> = Ok(value: T) | Err(error: Error)
}
