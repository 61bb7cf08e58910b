/** Shared value types: C#'s null as Option, thrown exceptions as Throws,
    and the integer arithmetic the .NET and JavaScript code relies on. */
module Common {

  /** A value that may be C#'s null (or JavaScript's null/undefined). */
  datatype Option<+T> = None | Some(value: T)

  /** The exception classes the modelled code throws or catches. */
  datatype ExceptionKind =
    | ValidationException    // System.ComponentModel.DataAnnotations
    | KeyNotFoundException   // System.Collections.Generic
    | ArgumentException      // Enum.Parse on a name that is not a member
    | DbUpdateException      // a write the store refuses
    | RedisException         // the cache backend is unreachable
    | GeneralException       // `throw new Exception(...)`

  datatype Exception = Exception(kind: ExceptionKind, message: string)

  /** The outcome of a call that either returns a value or throws. */
  datatype Throws<+T> = Return(value: T) | Throw(error: Exception)

  /** Stand-in for the text of an exception raised inside EF Core, Redis or
      Enum.Parse; the model keeps the exception's class but not its wording. */
  const FrameworkMessage: string := "<framework message>"

  /** Euclidean division of a natural number: the quotient times the divisor
      is the largest multiple of the divisor not above the dividend. */
  lemma DivBounds(a: nat, b: int)
    requires b > 0
    ensures (a / b) * b <= a < (a / b) * b + b
    ensures a / b >= 0
  {
    var q, r := a / b, a % b;
    assert a == q * b + r;
  }

  /** `a / b` as C#'s and JavaScript's integer division (and TimeSpan.Days)
      computes it: the quotient rounded toward zero. */
  function TruncDiv(a: int, b: int): (q: int)
    requires b > 0
    ensures a >= 0 ==> 0 <= q && q * b <= a < q * b + b
    ensures a < 0 ==> q <= 0 && q * b - b < a <= q * b
  {
    if a >= 0 then
      DivBounds(a, b);
      a / b
    else
      DivBounds(-a, b);
      -((-a) / b)
  }

  /** Math.ceil(a / b) for a non-negative a. */
  function CeilDiv(a: nat, b: nat): (q: nat)
    requires b > 0
    ensures q * b >= a
    ensures q == 0 || (q - 1) * b < a
  {
    DivBounds(a + b - 1, b);
    (a + b - 1) / b
  }

  function Abs(x: int): (r: nat)
    ensures r == x || r == -x
  {
    if x < 0 then -x else x
  }
}
