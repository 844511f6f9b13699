/** Failure-carrying results shared by the driver and the service models. */
module Outcomes {

  /** A value that may be absent: Java's null or an empty Optional. */
  datatype Option<+T> = None | Some(value: T)

  /** Either a value or the exception the Java code would throw instead. */
  datatype Result<+T, +E> = Ok(value: T) | Err(error: E)
}
