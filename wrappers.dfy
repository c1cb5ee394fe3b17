/** Option and Result, used for Python's `None` and for the exceptions the library raises. */
module Wrappers {

  datatype Option<+T> = None | Some(value: T)

  datatype Result<+T, +E> = Ok(value: T) | Err(error: E)
}

/** What the library raises, one constructor per exception. */
module Errors {

  datatype Error =
    | EmptyFile          // `reader.next()` on a file with no line: StopIteration
    | RowTooLong         // `header[i]` past the end of the header: IndexError
    | NotUniformWidth    // load_csv: "csv not uniform width"
    | HeadersRequired    // `set(None)` when appending to an existing file: TypeError
    | Conflict           // set_deep indexing into a scalar: TypeError
    | NothingToWrite     // write_csv: "either columns or rows must be specified"
    | RowsNotIterable    // `list(None)` in rows_to_tuples: TypeError
}
