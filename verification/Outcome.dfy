/** Error codes of the generated parsers and serializers, and the result type that carries them. */
module Outcome {

  datatype Error =
    | ShortBuffer    // not enough input, or not enough room in the output
    | InvalidTag     // no variant or varint branch for a tag
    | Constraint     // a `require` clause failed
    | Overflow       // a value too large for its varint
    | InvalidState   // a state machine has no transition for an event
    | Capacity       // more array elements than the struct holds
    | TrailingData   // a `within` scope was not used up
    | Noncanonical   // an @strict varint in a longer form than needed
    | Checksum       // an @checksum field does not match
    | Undefined      // an expression without a defined C value (not an error code of the source)

  datatype Result<+T> = Ok(value: T) | Err(error: Error) {
    predicate IsFailure() { Err? }

    function PropagateFailure<U>(): Result<U>
      requires Err?
    {
      Err(error)
    }

    function Extract(): T
      requires Ok?
    {
      value
    }
  }

  datatype Option<+T> = None | Some(value: T)
}
