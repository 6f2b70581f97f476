/** Option and Result shapes shared by every module of the model. */
module Wrappers {
  datatype Option<T> = None | Some(value: T)

  /** Outcome of an operation that can raise: the source's exceptions and
      assertion failures become `Fail` with a short description. */
  datatype Result<T> = Ok(value: T) | Fail(error: string)
}
