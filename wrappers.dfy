/** Option and Result values, and the errors that end a run of the script early. */
module Wrappers {

  datatype Option<+T> = None | Some(value: T)

  datatype Result<+T, +E> = Success(value: T) | Failure(error: E)

  /** Every way the script stops with exit status 1 before it is done. */
  datatype Error =
    | ReplaceTooLong      // the replacement is longer than the search string
    | MalformedHeapLine   // `split`/`int(…, 16)` raised on the `[heap]` line
    | HeapNotFound        // no `[heap]` line, or its start address parsed as 0
    | MemNotAccessible    // the process memory cannot be opened for reading and writing
}
