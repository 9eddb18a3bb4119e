/** Small shared datatypes. */
module Common {

  /** The model's stand-in for a nullable pointer or a "not found" result. */
  datatype Option<+T> = None | Some(value: T)

}
