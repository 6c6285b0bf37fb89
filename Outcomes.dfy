/** Values and failures shared by the router and the sync step in Ellsync.
    Each constructor of Error is one of the exceptions that ellsync's
    main() can raise on the paths it takes between reading the router
    and running rsync. */
module Outcomes {

  datatype Option<T> = None | Some(value: T)

  datatype Error =
      /** The single argument holds no ':' (the `list` / unknown command
          branch, which only raises NotImplementedError). */
    | CommandNotImplemented(command: string)
      /** `name:subdir` unpacking of the split argument saw this many pieces
          instead of two (Python's ValueError on unpacking). */
    | UnpackMismatch(pieces: nat)
      /** The stream name is not a key of the router (KeyError). */
    | UnknownStream(name: string)
      /** The first stream whose roots prefix both directories leaves
          different subdirectories on the two sides. */
    | InconsistentSubdir(fromSuffix: string, toSuffix: string)
      /** No stream's roots prefix both directories. */
    | StreamNotFound(fromDir: string, toDir: string)
      /** The named path is not a directory. */
    | DirectoryNotPresent(path: string)

  datatype Result<T> = Ok(value: T) | Err(error: Error)
}
