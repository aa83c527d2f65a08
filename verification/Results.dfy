/** Optional values, and results that stand for a return or a raised `ValueError`. */
module Results {
  datatype Option<+T> = None | Some(value: T)

  datatype Result<+T> = Ok(value: T) | Error(message: string)
}
