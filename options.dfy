/** Rust's `Option<T>`: the result of `pop` and of an iterator's `next`. */
module Options {

  datatype Option<+T> = None | Some(value: T)

}
