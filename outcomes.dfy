/** What a route handler answers: a value on success, or a failure that the
    HTTP layer turns into a status code and a JSON body. */
module Outcomes {

  datatype Option<+T> = None | Some(value: T)

  /** The two ways a handler refuses a request: express-validator's
      `{ errors: [...] }` body (always status 400), or a status code with a
      `{ message }` body. */
  datatype Failure =
    | Invalid(errors: seq<string>)
    | Refused(status: nat, message: string)

  datatype Result<+T> = Ok(value: T) | Err(failure: Failure)
}
