/** Failure-carrying results shared by every module of the model.

    The modelled program is written in a language with exceptions; each
    exception that the modelled code can raise is represented here as a
    `Fault` value so that error paths are part of the model rather than
    excluded by preconditions. */
module Wrappers {

  datatype Option<+T> = None | Some(value: T)

  datatype Result<+R, +E> = Success(value: R) | Failure(error: E) {
    predicate IsFailure() {
      Failure?
    }

    function PropagateFailure<U>(): Result<U, E>
      requires Failure?
    {
      Failure(error)
    }

    function Extract(): R
      requires Success?
    {
      value
    }
  }

  /** The run-time errors the modelled code can raise. */
  datatype Fault =
    | IndexOutOfRange      // subscript past the end of a byte buffer
    | MissingKey           // dictionary lookup of an absent key
    | NoneHasNoAttribute   // attribute access on a missing (None) object
    | ByteOutOfRange       // appending a value outside 0..255 to a byte buffer
    | NotAscii             // decoding a byte >= 128 as ASCII
    | BadArgument          // an argument the callee rejects: an unknown keyword, a negative size
    | BadDimensions        // an image whose width + height is not that of the canvas
    | DivisionByZero       // aspect ratio of an image of height zero
    | NoneNotIterable      // iterating over a missing (None) value
}
