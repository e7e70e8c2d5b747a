/** Error kinds and the result type shared by every module of the model.
    Each error is named after the Python exception the library raises. */
module Wrappers {

  datatype Error =
    | ValueError         // bad numeric argument, unknown time unit, answer not among choices
    | NameError          // unit token that is not a metric or imperial unit
    | TypeError          // metric units of different quantities (length, mass, volume)
    | IndexError         // indexing an empty list or string, or past the alphabet
    | ZeroDivisionError  // division by a zero gcd

  datatype Result<+T> = Ok(value: T) | Err(error: Error)

  datatype Option<+T> = None | Some(value: T)
}
