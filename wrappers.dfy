/** Failure-carrying return values: Kotlin's nullable parameters become Option,
    methods that throw become methods returning Result. */
module Wrappers {

  datatype Option<+T> = None | Some(value: T)

  datatype Result<+T, +E> = Ok(value: T) | Err(error: E)
}
