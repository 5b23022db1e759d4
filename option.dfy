/** An optional value, for the fields of the service that JavaScript leaves
    `undefined` and for a document that may not exist yet. */
module Optional {
  datatype Option<T> = None | Some(value: T)
}
