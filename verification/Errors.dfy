/** Results of the HPACK decoder: a value or one of the decoder's errors. */
module Errors {
  datatype Option<+T> = None | Some(value: T) {
    function GetOr(default: T): T {
      if Some? then value else default
    }
  }

  datatype NeedMore = UnexpectedEndOfStream | IntegerUnderflow | StringUnderflow

  datatype DecoderError =
    | InvalidRepresentation
    | InvalidIntegerPrefix
    | InvalidTableIndex
    | InvalidHuffmanCode
    | InvalidUtf8
    | InvalidStatusCode
    | InvalidPseudoheader
    | InvalidMaxDynamicSize
    | IntegerOverflow
    | NeedMore(kind: NeedMore)

  datatype Result<+T> = Ok(value: T) | Err(error: DecoderError) {
    predicate IsFailure() {
      Err?
    }

    function PropagateFailure<U>(): Result<U>
      requires Err?
    {
      Err(error)
    }

    function Extract(): T
      requires Ok?
    {
      value
    }
  }
}
