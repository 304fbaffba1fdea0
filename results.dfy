/** Success/failure values standing for Rust's `std::io::Result` and `Option`. */
module Results {

  datatype Result<+T, +E> = Ok(value: T) | Err(error: E)

  datatype Option<+T> = None | Some(value: T)
}
