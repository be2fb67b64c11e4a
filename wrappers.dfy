/** Option and the decoders' result type. */
module Wrappers {

  /** A value or nothing; stands for a C pointer that may be null. */
  datatype Option<+T> = None | Some(value: T)

  /** Outcome of a decoder: a value, or `Malformed`, which is what the C code
      signals by storing OHTTP in the codec context's error slot. */
  datatype Result<+T> = Ok(value: T) | Malformed {

    predicate IsFailure() {
      Malformed?
    }

    function PropagateFailure<U>(): Result<U>
      requires Malformed?
    {
      Malformed
    }

    function Extract(): T
      requires Ok?
    {
      value
    }
  }
}
