/** Failure-carrying wrappers shared by the whole model: `Option` for the
    lookups that return `Option<&T>` in the game, `Result` for board loading. */
module Options {

  datatype Option<+T> = None | Some(value: T)

  datatype Result<+R, +E> = Ok(value: R) | Err(error: E)
}
