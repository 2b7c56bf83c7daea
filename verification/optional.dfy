/** The `Some(x) | None` result used wherever the modelled program returns
    a value or Python's `None`. */
module Optional {

  datatype Option<+T> = None | Some(value: T)
}
