/** Result and option values shared by the buffer modules. */
module Results {

  /** The two error values a lookup can return: `ErrBufferOutOfRange` (RawLineBuffer,
      FilteredBuffer) and the "empty buffer" error (MemoryBuffer). */
  datatype BufferError = OutOfRange | EmptyBuffer

  /** A Go `(Line, error)` pair: exactly one of the two is meaningful. */
  datatype Result<T> = Ok(value: T) | Err(error: BufferError)

  datatype Option<T> = None | Some(value: T)
}
