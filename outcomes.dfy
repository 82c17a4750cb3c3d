/** Option and Result values, and the errors the builder reports. */
module Outcomes {

  datatype Option<+T> = None | Some(value: T)

  datatype Result<+T, +E> = Ok(value: T) | Err(error: E)

  /** One terminal error of a build; each names the operation that failed. */
  datatype Error =
    | LstatFailed(path: string)               // the walked root cannot be stat'ed
    | ReadDirFailed(path: string)             // a directory listing cannot be read
    | RelFailed(target: string, base: string) // "Rel: can't make target relative to base"
    | OpenFailed(path: string)                // a source file cannot be opened
    | CopyFailed(path: string)                // reading a source file's bytes failed
    | CreateFailed(path: string)              // the output archive cannot be created
    | OutputExists                            // "Output file already exists"
    | EmptySources                            // "Sources can't be empty, ..."
}
