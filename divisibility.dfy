/** `is_divisible_by(number, divisor)`: `number % divisor == 0` under
    Python's integer semantics, including the ZeroDivisionError that Python
    raises for a zero divisor. */
module Divisibility {
  import opened PyInt

  /** A Python call that either yields a value or raises ZeroDivisionError. */
  datatype Outcome<T> = Value(value: T) | ZeroDivisionError

  function IsDivisibleBy(number: int, divisor: int): (r: Outcome<bool>)
    ensures r.ZeroDivisionError? <==> divisor == 0
    ensures r.Value? ==> (r.value <==> IsMultipleOf(number, divisor))
  {
    if divisor == 0 then ZeroDivisionError
    else
      ModZeroIffMultiple(number, divisor);
      Value(Mod(number, divisor) == 0)
  }

  /** Zero is divisible by every nonzero divisor. */
  lemma ZeroIsDivisible(divisor: int)
    requires divisor != 0
    ensures IsDivisibleBy(0, divisor) == Value(true)
  {
  }

  /** `number` is divisible by `divisor` exactly when it is by `-divisor`. */
  lemma {:induction false} DivisorSignIgnored(number: int, divisor: int)
    ensures IsDivisibleBy(number, -divisor) == IsDivisibleBy(number, divisor)
  {
    var opposite := -divisor;
    if divisor != 0 {
      if IsMultipleOf(number, divisor) {
        var k :| number == k * divisor;
        assert number == (-k) * opposite;
      }
      if IsMultipleOf(number, opposite) {
        var k :| number == k * opposite;
        assert number == (-k) * divisor;
      }
    }
  }

  /** The assertions of `test_is_divisible_by`. */
  lemma DivisibilityExamples()
    ensures IsDivisibleBy(101, 17) == Value(false)
    ensures IsDivisibleBy(5, 2) == Value(false)
    ensures IsDivisibleBy(4, 2) == Value(true)
    ensures IsDivisibleBy(1992, 3) == Value(true)
    ensures IsDivisibleBy(0, 1000) == Value(true)
  {
  }
}
