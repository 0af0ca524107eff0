/** Optional values and results that carry an error, for the Go
    (value, error) pairs and the panics of the pipeline. */
module Results {

  datatype Option<+T> = None | Some(value: T)

  datatype Result<+T, +E> = Ok(value: T) | Err(error: E)
}
