/** Values shared by every part of the model: optional values, the outcome of a call that
    may throw a Java exception, and the range of a Java `int`. */
module Base {

  /** A value that may be absent, standing for a nullable Java reference or an `Optional`. */
  datatype Option<+T> = None | Some(value: T)

  /** The exceptions that the modelled services throw. */
  datatype JavaException =
    | IllegalArgument(message: string)   // java.lang.IllegalArgumentException
    | NoSuchElement                      // Optional.get() on an empty Optional
    | Arithmetic                         // Math.toIntExact on a value outside the int range

  /** The outcome of a Java method: it returned a value or it threw. */
  datatype Outcome<+T> = Returned(value: T) | Thrown(exception: JavaException)

  const INT_MIN: int := -0x8000_0000
  const INT_MAX: int := 0x7FFF_FFFF

  /** A value of Java's 32-bit `int` (and of a non-null `Integer`). */
  type Int32 = x: int | INT_MIN <= x <= INT_MAX

  predicate InInt32Range(x: int) {
    INT_MIN <= x <= INT_MAX
  }

  /** Java `int` arithmetic: the exact result reduced to 32 bits, two's complement. */
  function Wrap32(x: int): (r: Int32)
    ensures InInt32Range(x) ==> r == x
    ensures (r - x) % 0x1_0000_0000 == 0
  {
    var m := (x - INT_MIN) % 0x1_0000_0000;
    m + INT_MIN
  }
}
