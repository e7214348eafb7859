/** An optional value, shared by the modules that report "nothing found" or
    "no error". */
module Options {

  datatype Option<T> = None | Some(value: T)
}
