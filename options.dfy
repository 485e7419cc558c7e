/** A value that may be absent (an unset webhook, a request not sent, a query that does not fail). */
module Options {
  datatype Option<+T> = None | Some(value: T)
}
