/** Outcomes of driver calls. A failure without a status code of its own is reported as Unknown. */
module Status {

  datatype Code = InvalidArgument | NotFound | AlreadyExists | FailedPrecondition | Internal | Aborted | Unknown

  datatype Result<+T> = Ok(value: T) | Err(code: Code)
}
