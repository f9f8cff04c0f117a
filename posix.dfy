/**
 * Vocabulary shared by the file-reading and the process-launch models:
 * machine integer ranges, the errno values the code raises or tests,
 * and the Option/Result wrappers that stand for Swift optionals and throws.
 */
module Posix {

  /** One byte of file content. */
  newtype byte = x: int | 0 <= x < 0x100

  /** Swift `Int` on a 64-bit platform. */
  const INT_MAX: int := 0x7fff_ffff_ffff_ffff
  const INT_MIN: int := -0x8000_0000_0000_0000
  type Int = x: int | INT_MIN <= x <= INT_MAX

  /** Swift `Int32` / C `int` (file descriptors, pids). */
  const INT32_MAX: int := 0x7fff_ffff
  const INT32_MIN: int := -0x8000_0000
  type Int32 = x: int | INT32_MIN <= x <= INT32_MAX

  /** errno values (identical on Darwin and Linux, except ENOATTR which is Darwin's). */
  const EINTR: int := 4
  const ENOMEM: int := 12
  const EACCES: int := 13
  const EISDIR: int := 21
  const EINVAL: int := 22
  const EFBIG: int := 27
  const ERANGE: int := 34
  const ENOATTR: int := 93

  datatype Option<+T> = None | Some(value: T) {
    /** Swift's `x ?? d` */
    function GetOr(d: T): T {
      match this
      case Some(v) => v
      case None => d
    }
  }

  /** A call that either returns a value or throws an error. */
  datatype Result<+T, +E> = Success(value: T) | Failure(error: E)

  function Min(a: int, b: int): int {
    if a <= b then a else b
  }

  function Max(a: int, b: int): int {
    if a <= b then b else a
  }

  /** Swift's `Int32(clamping: x)`. */
  function ClampToInt32(x: int): (r: Int32)
    ensures INT32_MIN <= x <= INT32_MAX ==> r == x
    ensures x > INT32_MAX ==> r == INT32_MAX
    ensures x < INT32_MIN ==> r == INT32_MIN
  {
    if x > INT32_MAX then INT32_MAX else if x < INT32_MIN then INT32_MIN else x
  }
}
