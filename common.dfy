/** Values shared by every part of the loader model: optional values, the
    .NET exceptions the core can raise, results that carry them, and the
    range of a 32-bit signed integer. */
module Common {

  datatype Option<+T> = None | Some(value: T)

  /** The exceptions the modelled code can raise. */
  datatype Exception =
    | FormatException              // a malformed version or range string
    | OverflowException            // int.Parse of a number above int.MaxValue
    | ArgumentOutOfRangeException  // slicing `input[1..^1]` of a one-character string

  /** The outcome of an operation that either returns a value or throws. */
  datatype Result<+T> = Ok(value: T) | Err(error: Exception)

  const MinInt32: int := -0x8000_0000
  const MaxInt32: int := 0x7fff_ffff

  /** The values of C#'s `int`. */
  type Int32 = x: int | MinInt32 <= x <= MaxInt32

  /** `int.CompareTo`: -1, 0 or 1 as `x` is below, equal to or above `y`. */
  function CompareInt(x: int, y: int): (r: int)
    ensures r < 0 <==> x < y
    ensures r == 0 <==> x == y
    ensures -1 <= r <= 1
  {
    if x < y then -1 else if x > y then 1 else 0
  }
}
