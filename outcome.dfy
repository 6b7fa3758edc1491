/** The two ways the classifier can fail. Both are divisions by zero in the
    program; here they are explicit error values. */
module Outcome {

  datatype Error =
    | DegenerateDocument  // a text with no qualifying token has no score
    | EmptyCorpus         // an accuracy over zero predictions is undefined

  datatype Result<T> = Success(value: T) | Failure(error: Error)
}
