/** The optional value the modelled program spells `Optional` / `std::optional`. */
module Options {
  datatype Option<+T> = None | Some(value: T)
}
