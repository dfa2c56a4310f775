/** Failure-carrying values shared by every part of the cipher model. */
module Results {

  /** The two ways a cipher operation can refuse its input. */
  datatype CipherError =
    | InvalidKey      // an empty key, refused at construction (the source does not check)
    | InvalidPadding  // unpadding found a pad length larger than the buffer

  /** Success with a value, or failure with the error that stopped the operation. */
  datatype Result<+T> = Success(value: T) | Failure(error: CipherError)

  /** What a piece of C++ does when taken literally: a defined outcome, or
      undefined behaviour (division by zero, reading past the end). */
  datatype Behaviour<+T> = Defined(outcome: T) | Undefined
}
