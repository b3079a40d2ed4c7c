/** Optional values: a JavaScript value that may be `null` (or `NaN`). */
module Options {

  datatype Option<+T> = None | Some(value: T)
}
