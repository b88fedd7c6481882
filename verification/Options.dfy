/** An optional value, standing for the sources' nil, -1 and `ok` results. */
module Options {
  datatype Option<+T> = None | Some(value: T)
}
