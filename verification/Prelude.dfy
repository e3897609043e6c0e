/** Vocabulary shared by every module of the model. */
module Prelude {

  datatype Option<+T> = None | Some(value: T)

  /** The sentinel errors a caller can tell apart; every other failure is `Failed`. */
  datatype Error =
    | NotFound
    | InvalidPatch
    | ConfigChanged
    | DecryptFailed
    | QuotaExceeded
    | Failed

  datatype Result<+T> = Ok(value: T) | Err(error: Error)

  const MIN_INT64: int := -0x8000_0000_0000_0000
  const MAX_INT64: int := 0x7FFF_FFFF_FFFF_FFFF

  type Int64 = n: int | MIN_INT64 <= n <= MAX_INT64

  type Byte = b: int | 0 <= b < 256

  /** Wall-clock instants, in nanoseconds; the clock may stall or run backwards. */
  type Instant = int

  const MILLISECOND: int := 1_000_000
}
