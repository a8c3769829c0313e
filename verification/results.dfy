/** The values the decoder's readers hand back: a result or an error,
    and where the read position stands afterwards. */
module Results {

  /** The errors the decoder can report. */
  datatype Error =
    | EndOfInput          // "unexpected end of input", made by getU8 and getU32
    | Eof                 // io.EOF, reported by the reader when nothing is left
    | UnexpectedEof       // io.ErrUnexpectedEOF, input ended part-way through a field
    | Overflow            // binary.ReadUvarint: the varint does not fit in 64 bits
    | UnknownCommandCode  // "Unknown command", made by parse

  datatype Option<+T> = None | Some(value: T)

  datatype Result<+T> = Ok(value: T) | Fail(error: Error)

  /** What one reader yields from a buffer, with the position after it. */
  datatype Step<+T> = Step(result: Result<T>, next: nat)
}
