/** An optional result: None stands for the error return of the source. */
module Options {
  datatype Option<T> = None | Some(value: T)
}
