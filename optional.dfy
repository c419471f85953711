/** A value that may be missing: a JSON field that is absent or null, a query
    argument that is absent, a nullable column. */
module Optional {
  datatype Option<+T> = None | Some(value: T)
}
