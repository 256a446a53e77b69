/** The one optional value used throughout the model (a PHP `null` or a missing Redis key). */
module Options {
  datatype Option<+T> = None | Some(value: T)
}
