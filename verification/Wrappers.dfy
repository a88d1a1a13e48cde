/** Option and the library's error codes (include/libbgp/types.h). */
module Wrappers {

  datatype Option<+T> = None | Some(value: T)

  datatype Result<+T> = Success(value: T) | Failure(error: Err)

  /** The error codes the modelled functions return. */
  datatype Err = Ok | BadLen | Invalid | Exists | NotFound | NoMem | Buffer

  /** An allocation. With `plentiful` it succeeds; otherwise it succeeds or fails arbitrarily. */
  method TryAlloc(plentiful: bool) returns (ok: bool)
    ensures plentiful ==> ok
  {
    ok := true;
    if !plentiful {
      ok := *;
    }
  }
}
