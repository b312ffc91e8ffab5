/** Results of operations that can throw in C++. */
module Outcomes {

  datatype Error =
    | DomainError
    | InvalidArgument
    | LengthError
    | DataTooLong
    | QuotesNotClosed
    | NotLoaded
    | NoMask

  datatype Result<+T> = Ok(value: T) | Err(error: Error)

  datatype Option<+T> = None | Some(value: T)
}
