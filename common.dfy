/** Go's `error`/result shapes used by both services. */
module Wrappers {

  /** A value that may be absent; `None` also stands for Go's `nil` error. */
  datatype Option<+T> = None | Some(value: T)

  /** A gRPC handler's outcome: a response or an error status. */
  datatype Result<+R, +E> = Success(value: R) | Failure(error: E)
}

/** The part of gRPC's status package that the services inspect. */
module Grpc {

  /** Numeric gRPC status codes, as defined by the gRPC protocol. */
  const InvalidArgument: nat := 3
  const DeadlineExceeded: nat := 4
  const Unavailable: nat := 14

  /** A gRPC status error: a code and a message. */
  datatype Status = Status(code: nat, message: string)

  /** An error returned by a client call: either a gRPC status, or an error
      that `status.FromError` does not recognise. */
  datatype CallError = StatusError(status: Status) | OtherError(message: string)

  /** Only these two conditions are worth retrying. */
  predicate Retryable(e: CallError)
  {
    e.StatusError? && (e.status.code == Unavailable || e.status.code == DeadlineExceeded)
  }
}
