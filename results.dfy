/** Failure values shared by the frame decoder and the primitive reader. */
module Results {

  /** The reasons a frame record can fail to decode. */
  datatype Error =
    | IllegalFrameCode     // the code is the sync marker 'N'
    | InvalidFrameCode     // the frame code table marks the code invalid
    | IllegalStreamId      // an explicit stream id is not below the stream count
    | IllegalHeaderIndex   // an explicit elision index is not below the table size
    | SmDataNotAllowed     // side/meta data in a container older than version 4
    | PayloadTooSmall      // the payload size cannot hold the elision prefix
    | ReadFailure          // the input ends, or does not hold the primitive asked for

  /** A decoded value, or the error that stopped decoding. */
  datatype Result<+T> = Ok(value: T) | Err(error: Error) {
    predicate IsFailure() {
      Err?
    }

    function PropagateFailure<U>(): Result<U>
      requires Err?
    {
      Err(error)
    }

    function Extract(): T
      requires Ok?
    {
      value
    }
  }

  /** The outcome of an operation that returns nothing but may fail. */
  datatype Outcome = Pass | Fail(error: Error)

  /** A value decoded from a token sequence, with the position just after it. */
  datatype Parsed<+T> = Parsed(value: T, next: nat)
}
