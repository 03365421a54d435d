/**
 * The finding record shared by the pattern recognizers
 * (presidio-analyzer/analyzer/recognizer_result.py), and the Python exceptions
 * that a `validate_result` hook can raise.
 */
module Analyzer {

  /** A detected entity: its type, its span in the text and its confidence. */
  class RecognizerResult {
    var entityType: string
    var start: int
    var end: int
    var score: real

    constructor (entityType: string, start: int, end: int, score: real)
      ensures this.entityType == entityType && this.start == start
      ensures this.end == end && this.score == score
    {
      this.entityType := entityType;
      this.start := start;
      this.end := end;
      this.score := score;
    }
  }

  /** The built-in exceptions the validators can raise. */
  datatype PyError = ValueError | OverflowError

  /** What a `validate_result` call does: return a result object or raise. */
  datatype Validation = Returned(result: RecognizerResult) | Raised(error: PyError)
}
