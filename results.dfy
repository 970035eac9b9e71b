/** The outcome of an operation that can fail: the Go functions' `(value, error)`
    pairs and their panics both become a `Result`. */
module Results {

  datatype Result<+T, +E> = Ok(value: T) | Err(error: E)
}
