/** Option and Result, the shapes Go's nil pointers and `(value, error)` pairs take here. */
module Results {

  datatype Option<+T> = None | Some(value: T)

  datatype Result<+T, +E> = Ok(value: T) | Err(error: E)
}
