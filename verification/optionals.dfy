/** The model's stand-in for `std::optional`: either empty (`NullOpt`) or holding a value. */
module Optionals {

  datatype Optional<T> = NullOpt | Some(value: T)
}
