/** A value that may be absent; stands in for a nullable Java reference. */
module Optional {

  datatype Option<+T> = None | Some(value: T)
}
