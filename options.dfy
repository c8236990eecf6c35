/** Optional values, standing for the nullable pointers and Python `None`s of the source. */
module Options {

  datatype Option<+T> = None | Some(value: T)
}
