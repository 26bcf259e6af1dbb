/** How a conversion can fail: the only exception the converters raise on
    their own is std::range_error("Invalid state"). */
module Outcome {

  datatype Error = InvalidState

  datatype Result<T> = Ok(value: T) | Err(error: Error)
}
