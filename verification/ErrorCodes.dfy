/** The error codes of `error.h` that the model reports. */
module ErrorCodes {
  /** An `int16_t` error code. */
  type Code = c: int | -0x8000 <= c < 0x8000

  const INVALID_CHARACTER: Code := -101
  const INVALID_SEPARATOR: Code := -103
  const DATA_TYPE_ERROR: Code := -104
  const MISSING_PARAMETER: Code := -109
  const UNDEFINED_HEADER: Code := -113
  const SUFFIX_NOT_ALLOWED: Code := -138
  const INVALID_STRING_DATA: Code := -151
  const EXPRESSION_PARSING_ERROR: Code := -170
  const SYSTEM_ERROR: Code := -310
  const QUEUE_OVERFLOW: Code := -350
  const INPUT_BUFFER_OVERRUN: Code := -363
}
