/** Small wrapper types shared by the other modules. */
module Optional {
  datatype Option<+T> = None | Some(value: T)
}
