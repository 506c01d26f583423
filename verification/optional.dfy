/** The absence-of-result signal the model client returns when the provider call fails. */
module Optional {

  datatype Option<+T> = None | Some(value: T)
}
