/** The optional value that the Rust source writes as `Option<T>`. */
module Optional {

  datatype Option<T> = None | Some(value: T)

}
