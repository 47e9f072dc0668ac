/** Optional values and results: the `null` returns and the thrown error of git.ts. */
module Results {

  datatype Option<+T> = None | Some(value: T)

  datatype Result<+T, +E> = Ok(value: T) | Err(error: E)
}
