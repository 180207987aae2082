/** Values shared by every module: Go strings and byte slices, messages, errors and
    the one piece of 64-bit arithmetic whose wrap-around the queue can observe. */
module Types {

  type Byte = b: int | 0 <= b < 256

  /** A Go string or byte slice. */
  type Bytes = seq<Byte>

  datatype Message = Message(key: Bytes, payload: Bytes, timestamp: int)

  datatype Option<+T> = None | Some(value: T)

  /** The sentinel errors of the queue, a refusal by the database, and `Panicked` for a
      run-time panic inside the call. */
  datatype Error =
    | OffsetOutOfRange
    | CommitTooLarge
    | PartitionFull
    | EmptyGroup
    | TopicExists
    | TopicNotFound
    | InvalidArg
    | PartitionRange
    | Refused
    | Panicked

  datatype Result<+T> = Ok(value: T) | Err(error: Error)

  const MAX_INT: int := 0x7fff_ffff_ffff_ffff

  /** Two's-complement truncation to 64 bits, Go's `int` and `int64` on 64-bit targets. */
  function Wrap64(x: int): int {
    (x + MAX_INT + 1) % (2 * MAX_INT + 2) - MAX_INT - 1
  }
}
