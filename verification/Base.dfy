/** Failure-compatible wrappers, the error kinds the file system raises, and
    the byte type shared by every codec. */
module Base {

  /** `None` stands for JavaScript's `null` / `undefined`. */
  datatype Option<+T> = None | Some(value: T)

  /** Every exception the modelled code can throw, by cause. */
  datatype Error =
    | NoPathGiven            // `_fixPath` called with a falsy path
    | NotFound               // `existsSync` was false
    | NotADirectory          // `readdirSync` on something whose stat says file
    | NotAFile               // `readFileSync` on something whose stat says directory
    | OnlyFileWrite          // `writeFileSync` over a directory
    | UnsupportedContent     // `writeFileSync` with neither Uint8Array nor string
    | NullStats              // a method was called on the `null` that `statSync` returned
    | BadMeta                // a metadata value that `JSON.parse` rejects or that parses to `null`
    | StatsMissing           // `renameSync` found no metadata
    | RenameRoot             // `renameSync('/')`
    | DirectoryCreateFail    // `mkdirsSync` wrapping an inner exception
    | RemoveDirFail          // `rmdirSync` wrapping an inner exception
    | RenameFail             // `renameSync` wrapping an inner exception
    | InvalidDataUri         // the data-URL pattern did not match
    | InvalidCharacter       // `btoa` / `atob` rejected their input
    | UriMalformed           // `decodeURIComponent` rejected its input
    | InvalidPath            // `resolveToFullPath` climbed above the root
    | UndeclaredFn           // `off` read the undeclared variable `fn`

  datatype Result<+T> = Ok(value: T) | Err(error: Error) {
    predicate IsFailure() { Err? }

    function PropagateFailure<U>(): Result<U>
      requires Err?
    {
      Err(error)
    }

    function Extract(): T
      requires Ok?
    {
      value
    }
  }

  /** One element of a Uint8Array. */
  type byte = x: int | 0 <= x < 256
}
