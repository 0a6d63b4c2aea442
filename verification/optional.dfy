/** A value that may be absent: the model of TypeScript's `T | null` and optional fields. */
module Optional {

  datatype Option<+T> = None | Some(value: T)
}
