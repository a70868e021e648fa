/** Optional values and fallible results, used wherever the Rust code would
    `unwrap` a missing value or panic. */
module Results {

  datatype Option<+T> = None | Some(value: T)

  datatype Result<+T, +E> = Ok(value: T) | Err(error: E)
}
