/** Small value types shared by the muxer model and the decoder-driver model. */
module Base {

  /** A value that may be missing (a null pointer in the C++ code). */
  datatype Option<T> = None | Some(value: T)

  /** A result or the error that aborted the operation. */
  datatype Result<T, E> = Success(value: T) | Failure(error: E)

  /** Pass, or the error that aborted the operation (an exception or an exit(1)). */
  datatype Outcome<E> = Pass | Fail(error: E)

  /** An unsigned 8-bit value (uint8_t). */
  newtype byte = x: int | 0 <= x < 256

  /** The libav sample formats (enum AVSampleFormat), interleaved and planar. */
  datatype SampleFormat =
    | SampleFmtNone
    | U8 | S16 | S32 | Flt | Dbl
    | U8P | S16P | S32P | FltP | DblP
}
