/** Optional values and results with an error side, shared by the parser and the aggregator. */
module Wrappers {

  /** A value that may be absent: `None` is the parser's "no value" marker. */
  datatype Option<+T> = None | Some(value: T)

  /** The outcome of a whole-table computation: a value, or the one error that rejected the table. */
  datatype Result<+T, +E> = Ok(value: T) | Err(error: E)
}
