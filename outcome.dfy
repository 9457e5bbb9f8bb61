/** Outcomes of the controllers: the value they answer with on success, or the
    HTTP error class they report. Validation failures, duplicate-key errors and
    runtime exceptions that are not ApiErrors all end in a server error. */
module Outcomes {

  datatype Option<+T> = None | Some(value: T)

  datatype Outcome<+T> =
    | Ok(value: T)
    | NotFound      // 404
    | BadRequest    // 400
    | ServerError   // 500
}
