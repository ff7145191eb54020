/** The errors of the key encoding (internal/bridge/encoding/errors.go). */
module KeyErrors {
  datatype KeyError =
    | ErrNameEmpty | ErrNameTooLong | ErrNulInString | ErrMalformedKey | ErrKeyTooShort
    | ErrInvalidPK | ErrNaNNotAllowed | ErrInvalidDecimal | ErrDecimalTooLarge

  datatype Result<+T> = Success(value: T) | Failure(error: KeyError)
}
