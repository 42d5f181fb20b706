// A value that may be absent, as the source's std::optional.

module Options {

  datatype Option<+T> = None | Some(value: T)
}
