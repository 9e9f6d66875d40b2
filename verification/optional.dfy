/** The optional value used for collaborator answers that may be missing
    and for readers that may reject their input. */
module Optional {

  datatype Option<+T> = None | Some(value: T)
}
