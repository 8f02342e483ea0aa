/** The parser's error taxonomy and the result types every parsing step returns. */
module Errors {
  import opened Bytes

  /** `ParseError` of src/header/parser.rs, with the `MissingAlignmentField`
      variant that the alignment parser raises added to it. */
  datatype ParseError =
    | MissingPrefix
    | BadRecordCode
    | MissingFieldTag
    | UnknownTag
    | RepeatTag
    | BadVersion
    | MissingVersion
    | MissingValue
    | UnknownValue
    | InvalidUTF8
    | MissingRefSeqName
    | MissingRefSeqLen
    | DuplicateKey
    | MissingRadGroupId
    | MissingProgramId
    | IOError
    | MissingAlignmentField

  datatype Option<T> = None | Some(value: T)

  /** `Result<T, ParseError>`; usable with `:-`. */
  datatype Result<T> = Ok(value: T) | Err(error: ParseError) {
    predicate IsFailure() { Err? }
    function PropagateFailure<U>(): Result<U> requires Err? { Err(error) }
    function Extract(): T requires Ok? { value }
  }

  /** A successful step: what was read and the unread rest of the line. */
  datatype Step<T> = Step(value: T, rest: Bytes)

  /** The outcome of a step that reads from a cursor: the result together with
      where the cursor stands afterwards, on failure as well as on success. */
  datatype Parsed<T> = Done(value: T, rest: Bytes) | Failed(error: ParseError, rest: Bytes) {
    predicate IsFailure() { Failed? }
    function PropagateFailure<U>(): Parsed<U> requires Failed? { Failed(error, rest) }
    function Extract(): Step<T> requires Done? { Step(value, rest) }

    function ToResult(): Result<T> {
      if Done? then Ok(value) else Err(error)
    }
  }

  /** A result paired with the cursor position it leaves behind. */
  function Located<T>(r: Result<T>, rest: Bytes): Parsed<T> {
    if r.Ok? then Done(r.value, rest) else Failed(r.error, rest)
  }
}
