/** The errors of the filesystem driver. */
module FsErrors {
  datatype FsError =
    | Corrupt
    | BadSuperblock
    | Unsupported
    | Invalid
    | NameTooLong
    | NotFound
    | Exists
    | NotDirectory
    | IsDirectory
    | NotEmpty
    | NoSpace
    | TooBig
    | TooManyLinks

  datatype Result<T> = Ok(value: T) | Err(error: FsError)
}
