/** The optional value the sources take from `std::optional`. */
module Options {
  datatype Option<+T> = None | Some(value: T)
}
