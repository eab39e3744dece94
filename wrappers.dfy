/** Small value types shared by every module: optional values, the Java exceptions the
    modelled code throws, results that carry either a value or such an exception, and
    Java's 32-bit `int`. */
module Wrappers {

  /** Java's `null` (or an absent answer) is None. */
  datatype Option<T> = None | Some(value: T)

  /** The exceptions the modelled code raises or lets escape. `SqlException` stands for any
      failure reported by the SQL backend; `SearchBound` is the model's own: the network
      search ran out of its iteration budget (see README, "Left out"). */
  datatype Exception = IllegalArgumentException | IllegalStateException | SqlException | SearchBound

  /** The outcome of a Java method that returns a value or throws. */
  datatype Result<T> = Ok(value: T) | Err(error: Exception)

  /** The outcome of a Java `void` method that may throw. */
  datatype Outcome = Pass | Fail(error: Exception)

  const Int32Min: int := -0x8000_0000
  const Int32Max: int := 0x7fff_ffff

  /** Java `int`. */
  type Int32 = x: int | Int32Min <= x <= Int32Max

  /** Java's narrowing of a (64-bit) integer to `int`: keep the low 32 bits, two's complement. */
  function Wrap32(x: int): (r: Int32)
    ensures Int32Min <= x <= Int32Max ==> r == x
    ensures (x - r) % 0x1_0000_0000 == 0
  {
    (x - Int32Min) % 0x1_0000_0000 + Int32Min
  }
}
