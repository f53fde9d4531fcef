/** The absent-or-present value the mesh code expresses with Python's `None`. */
module Optional {

  datatype Option<T> = None | Some(value: T)
}
