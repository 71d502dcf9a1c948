/** Outcomes of operations that the source lets throw, reject or fail to parse. */
module Results {

  datatype Option<T> = None | Some(value: T)

  datatype Result<T, E> = Ok(value: T) | Err(error: E)

}
