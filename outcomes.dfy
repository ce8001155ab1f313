/** Outcomes of the operations that can fail. Where the source prints a
    message and exits, or lets an exception escape, the model returns an
    `Err` naming the cause instead. */
module Outcomes {
  datatype Option<T> = None | Some(value: T)

  datatype Error =
    | ZipNotFound(path: string)     // the zip path does not exist (message, exit status 1)
    | BadZip(location: string)      // the bytes at a path or URL are not a zip archive
    | PythonSyntaxError             // the Python parser rejected a source file; never caught
    | Undecodable(path: string)     // a file's bytes are not valid UTF-8; never caught

  datatype Result<T> = Ok(value: T) | Err(error: Error)
}
