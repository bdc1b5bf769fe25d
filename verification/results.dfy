/** Success/failure carriers shared by the model: `Result` for the `Result<T, E>`
    returns of the library, `Option` for the standard library's `Option`. */
module Results {

  datatype Result<+T, +E> = Ok(value: T) | Err(error: E)

  datatype Option<+T> = None | Some(value: T)
}
