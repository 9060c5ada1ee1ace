# Integer predicates of the list-filter console program

The program (`main.py`) is a console menu that reads a list of integers and
filters it. Its computational core is two integer predicates:

- `is_divisible_by(number, divisor)`: `number % divisor == 0` with Python's
  integer operators;
- `has_all_digits_prime(number)`: whether every decimal digit of
  `abs(number)` is one of 2, 3, 5, 7. Zero is rejected outright, a negative
  argument is negated first, and a `while` loop strips the last digit with
  `% 10` and `// 10`, returning `False` at the first digit that is not prime.

The Dafny model has three modules:

- `PyInt` (`py_int.dfy`): Python's floor division `//` and its `%`, whose
  result takes the sign of the divisor, written out over Dafny's Euclidean
  operators. It also holds `abs` and the proof that a zero Python remainder
  means "is an integer multiple".
- `Divisibility` (`divisibility.dfy`): `IsDivisibleBy`. A zero
  divisor gives the `ZeroDivisionError` outcome, which is what Python
  raises. It is not excluded by a precondition.
- `PrimeDigits` (`prime_digits.dfy`): `HasAllDigitsPrime` is a method with the
  `while` loop of `has_all_digits_prime`. Its loop invariant ties the number still to be scanned to
  the recursive specification `AllDigitsPrime`. That recursion is checked
  against an independent definition: the list of decimal digits (`Digits`,
  least significant first), with round-trip lemmas against `FromDigits`.
  `AllDigitsPrime` is defined as the recursion the loop performs. For `n > 0`
  it holds exactly when `n % 10` is a prime digit and either `n / 10 == 0` or
  `AllDigitsPrime(n / 10)` holds.

The assertions of `test_is_divisible_by` and `test_has_all_digits_prime` are
restated as lemmas over the specification functions. The digit assertions are
also restated as `PrimeDigits.TestHasAllDigitsPrime`, which calls the method
and is proved to pass. `PrimeDigits.TestZeroAndSign` does the same for the
zero check and the negation.

`is_divisible_by` accepts any integer divisor. Any nonzero divisor gives a
result, and the sign of the divisor does not change it.

## Model

| member | source | states |
|---|---|---|
| `PyInt.Mod` | main.py:11 | Python's `a % d`: for a positive `d` the result is in `[0, d)`, for a negative `d` it is in `(d, 0]`, and `a == d * (a // d) + r` |
| `PyInt.FloorDiv` | main.py:38 | Python's `a // d`: the quotient rounded toward negative infinity, so `d * q <= a < d * q + d` for a positive `d` and `d * q + d < a <= d * q` for a negative one |
| `PyInt.ModZeroIffEuclidean` | main.py:11 | Python's remainder is zero exactly when the Euclidean one is, so divisibility does not depend on the rounding convention |
| `PyInt.ModZeroIffMultiple` | main.py:11 | a zero Python remainder holds exactly when `a` is an integer multiple of `d` (both directions) |
| `Divisibility.IsDivisibleBy` | main.py:1-11 | the result is `ZeroDivisionError` exactly when the divisor is zero; otherwise it is true exactly when `number` is an integer multiple of `divisor` |
| `Divisibility.ZeroIsDivisible` | main.py:54 | zero is divisible by every nonzero divisor |
| `Divisibility.DivisorSignIgnored` | main.py:11 | divisibility by `d` and by `-d` give the same outcome, zero divisor included |
| `Divisibility.DivisibilityExamples` | main.py:50-54 | 101 by 17 and 5 by 2 are false; 4 by 2, 1992 by 3 and 0 by 1000 are true |
| `PrimeDigits.PrimeDigitListIsComplete` | main.py:23-24 | the list `[2, 3, 5, 7]` holds exactly the decimal digits that are prime |
| `PrimeDigits.Digits` | main.py:34-38 | the decimal digits of `n`, least significant first: empty exactly for zero, each in `0..9`, the most significant one nonzero |
| `PrimeDigits.DigitsRoundTrip` | main.py:34-38 | reading back the digits of `n` gives `n` |
| `PrimeDigits.FromDigitsRoundTrip` | main.py:34-38 | every digit sequence without leading zero is the digit list of the number it denotes |
| `PrimeDigits.EveryDigitPrimeCons` | main.py:35-36 | a digit sequence is all prime exactly when its first digit is prime and the rest are all prime |
| `PrimeDigits.AllDigitsPrime` | main.py:34-41 | the specification of the loop, by definition: for `n > 0`, the last digit `n % 10` is a prime digit, and either `n / 10 == 0` or `n / 10` again has only prime digits; zero fails |
| `PrimeDigits.AllDigitsPrimeIffEveryDigit` | main.py:26-43 | the recursive specification holds exactly when `n` is nonzero and every one of its decimal digits is in `{2, 3, 5, 7}` |
| `PrimeDigits.AppendDigit` | main.py:34-41 | appending digit `d` to `n` keeps the property exactly when `d` is a prime digit and `n` is empty (zero) or has only prime digits |
| `PrimeDigits.ZeroAndSign` | main.py:26-31 | zero is rejected, and `number` and `-number` give the same answer |
| `PrimeDigits.HasAllDigitsPrime` | main.py:14-43 | the loop, with its early `return False`, returns exactly `AllDigitsPrime(abs(number))`, and it terminates because the number shrinks under `// 10` |
| `PrimeDigits.PrimeDigitExamples` | main.py:61-64 | 576 and 100 are rejected; 777 and 235 are accepted |
| `PrimeDigits.TestHasAllDigitsPrime` | main.py:57-64 | run through the method, the four assertions of `test_has_all_digits_prime` all hold |
| `PrimeDigits.TestZeroAndSign` | main.py:26-31 | run through the method, 0 is rejected, and `number` and `-number` give the same result for every `number` |

## Left out

- `ui_process_read_list`, `ui_read_command`, `ui_process_display_list`, `ui_show_menu` (main.py:74-111, 159-167): console input and output through `input`/`print`, and string parsing with `int(...)`.
- `ui_process_command`, `ui_loop`, `main` (main.py:114-173): the command loop, driven by user input. Its only state is the list that was read in.
- `run_tests` (main.py:67-71): it only calls the two test functions and prints a message. Their assertions are the example lemmas above.
- The longest-contiguous-run finder that these predicates are meant to drive is not in `main.py`. That component is not part of this model.
- Python's integers are unbounded, and so are Dafny's. Nothing wraps around, so no width is modelled.
