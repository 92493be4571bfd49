/** A value that may be missing: an optional tag of a record, or the position
    of a store that may not exist. */
module Optional {

  datatype Option<T> = None | Some(value: T)
}
