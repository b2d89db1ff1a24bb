/** A nullable value: the model of C#'s `int?` and of a reference that may be null. */
module Optional {

  datatype Option<+T> = None | Some(value: T)

}
