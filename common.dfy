/** Result and error types shared by every stage of the upload run. */
module Common {

  datatype Option<+T> = None | Some(value: T)

  datatype Result<+R> = Success(value: R) | Failure(error: Error)

  /** Why a run stops. Every failure is fatal: the program prints a
      diagnostic and exits with status 1. */
  datatype Error =
    | UsageError                 // missing -b or -d, or an unknown -c value
    | TraversalError             // the directory walk reported an error
    | SessionError               // the AWS session could not be created
    | OpenError(path: string)    // a collected file could not be opened
    | CompressionError           // the gzip writer failed to copy or close
    | UnsupportedCompression     // "br" was selected but no encoder exists
    | UploadError(path: string)  // the store refused an upload
    | ListError                  // the store refused a listing request
    | DeleteError(key: string)   // the store refused a delete

  /** File contents and object bodies. */
  type Bytes = seq<bv8>

  /** The elements of a sequence, as a set. */
  function Elements<T>(s: seq<T>): set<T>
  {
    set x | x in s
  }

  /** The elements of a concatenation are those of its parts. */
  lemma ElementsAppend<T>(a: seq<T>, b: seq<T>)
    ensures Elements(a + b) == Elements(a) + Elements(b)
  {
  }

  /** Concatenation is associative. */
  lemma AppendAssoc<T>(a: seq<T>, b: seq<T>, c: seq<T>)
    ensures a + b + c == a + (b + c)
  {
  }
}
