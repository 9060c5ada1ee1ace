/** `has_all_digits_prime(number)`: every decimal digit of `abs(number)` is
    one of the prime digits 2, 3, 5 and 7; zero has no such digits and is
    rejected. */
module PrimeDigits {
  import opened PyInt

  /** `has_all_digits_prime`'s `prime_digits` list (main.py:24). */
  const PrimeDigitList: seq<int> := [2, 3, 5, 7]

  predicate IsPrimeDigit(d: int) {
    d in PrimeDigitList
  }

  ghost predicate IsPrime(p: int) {
    p >= 2 && forall k :: 2 <= k < p ==> p % k != 0
  }

  /** The list holds exactly the decimal digits that are prime. */
  lemma PrimeDigitListIsComplete(d: int)
    ensures IsPrimeDigit(d) <==> 0 <= d < 10 && IsPrime(d)
  {
    if d == 4 || d == 6 || d == 8 {
      assert d % 2 == 0;
    } else if d == 9 {
      assert d % 3 == 0;
    } else if d == 7 {
      forall k | 2 <= k < 7 ensures 7 % k != 0 {
        assert k == 2 || k == 3 || k == 4 || k == 5 || k == 6;
      }
    } else if d == 5 {
      forall k | 2 <= k < 5 ensures 5 % k != 0 {
        assert k == 2 || k == 3 || k == 4;
      }
    } else if d == 3 {
      forall k | 2 <= k < 3 ensures 3 % k != 0 {
        assert k == 2;
      }
    }
  }

  /** The decimal digits of `n`, least significant first; zero has none. */
  function Digits(n: nat): (ds: seq<int>)
    ensures n == 0 <==> ds == []
    ensures forall i :: 0 <= i < |ds| ==> 0 <= ds[i] < 10
    ensures ds != [] ==> ds[|ds| - 1] != 0
  {
    if n == 0 then [] else [n % 10] + Digits(n / 10)
  }

  /** The number a least-significant-first digit sequence denotes. */
  function FromDigits(ds: seq<int>): int {
    if ds == [] then 0 else ds[0] + 10 * FromDigits(ds[1..])
  }

  /** A well-formed digit sequence: decimal digits, no leading zero. */
  predicate IsDigitSequence(ds: seq<int>) {
    (forall i :: 0 <= i < |ds| ==> 0 <= ds[i] < 10) && (ds != [] ==> ds[|ds| - 1] != 0)
  }

  lemma {:induction false} DigitsRoundTrip(n: nat)
    ensures FromDigits(Digits(n)) == n
  {
    if n > 0 {
      DigitsRoundTrip(n / 10);
      assert Digits(n)[1..] == Digits(n / 10);
    }
  }

  lemma {:induction false} FromDigitsRoundTrip(ds: seq<int>)
    requires IsDigitSequence(ds)
    ensures FromDigits(ds) >= 0 && Digits(FromDigits(ds)) == ds
  {
    if ds != [] {
      var rest := ds[1..];
      assert IsDigitSequence(rest) by {
        assert forall i :: 0 <= i < |rest| ==> rest[i] == ds[i + 1];
      }
      FromDigitsRoundTrip(rest);
      var t := FromDigits(rest);
      var n := ds[0] + 10 * t;
      assert n % 10 == ds[0] && n / 10 == t;
      assert t == 0 ==> rest == [] && ds[0] != 0;
      assert n > 0;
      assert Digits(n) == [ds[0]] + rest;
    }
  }

  /** The early-exit loop of `has_all_digits_prime` (main.py:34-41), as a
      recursion on `n / 10`: the last
      digit must be prime, and so must every digit of what is left. */
  predicate AllDigitsPrime(n: nat)
    decreases n
  {
    n > 0 && IsPrimeDigit(n % 10) && (n / 10 == 0 || AllDigitsPrime(n / 10))
  }

  predicate EveryDigitPrime(ds: seq<int>) {
    forall i :: 0 <= i < |ds| ==> IsPrimeDigit(ds[i])
  }

  lemma EveryDigitPrimeCons(d: int, tail: seq<int>)
    ensures EveryDigitPrime([d] + tail) <==> IsPrimeDigit(d) && EveryDigitPrime(tail)
  {
    var ds := [d] + tail;
    if EveryDigitPrime(ds) {
      assert IsPrimeDigit(ds[0]);
      forall i | 0 <= i < |tail| ensures IsPrimeDigit(tail[i]) {
        assert tail[i] == ds[i + 1];
      }
    }
    if IsPrimeDigit(d) && EveryDigitPrime(tail) {
      forall i | 0 <= i < |ds| ensures IsPrimeDigit(ds[i]) {
        if i > 0 { assert ds[i] == tail[i - 1]; }
      }
    }
  }

  /** The recursion agrees with "every decimal digit is prime". */
  lemma {:induction false} AllDigitsPrimeIffEveryDigit(n: nat)
    ensures AllDigitsPrime(n) <==> n != 0 && EveryDigitPrime(Digits(n))
  {
    if n > 0 {
      AllDigitsPrimeIffEveryDigit(n / 10);
      EveryDigitPrimeCons(n % 10, Digits(n / 10));
    }
  }

  /** Writing one more digit `d` to the right of `n`. */
  lemma AppendDigit(n: nat, d: int)
    requires 0 <= d < 10
    ensures AllDigitsPrime(10 * n + d) <==> IsPrimeDigit(d) && (n == 0 || AllDigitsPrime(n))
  {
    var m := 10 * n + d;
    assert m % 10 == d && m / 10 == n;
  }

  /** Zero is rejected, and the sign of the argument is ignored. */
  lemma ZeroAndSign(number: int)
    ensures !AllDigitsPrime(Abs(0))
    ensures AllDigitsPrime(Abs(-number)) == AllDigitsPrime(Abs(number))
  {
  }

  /** `has_all_digits_prime`: strip prime last digits until none are left,
      stopping at the first digit that is not prime. */
  method HasAllDigitsPrime(number: int) returns (r: bool)
    ensures r == AllDigitsPrime(Abs(number))
  {
    if number == 0 {
      return false;
    }
    var n := number;
    if n < 0 {
      n := -n;
    }
    while n > 0
      invariant n >= 0
      invariant AllDigitsPrime(Abs(number)) <==> n == 0 || AllDigitsPrime(n)
      decreases n
    {
      var lastDigit := Mod(n, 10);
      if lastDigit in PrimeDigitList {
        n := FloorDiv(n, 10);
      } else {
        return false;
      }
    }
    return true;
  }

  /** The assertions of `test_has_all_digits_prime`, on the definition. */
  lemma PrimeDigitExamples()
    ensures !AllDigitsPrime(576)
    ensures !AllDigitsPrime(100)
    ensures AllDigitsPrime(777)
    ensures AllDigitsPrime(235)
  {
  }

  /** `test_has_all_digits_prime`, through the method: it passes. */
  method TestHasAllDigitsPrime() returns (passed: bool)
    ensures passed
  {
    var r576 := HasAllDigitsPrime(576);
    var r100 := HasAllDigitsPrime(100);
    var r777 := HasAllDigitsPrime(777);
    var r235 := HasAllDigitsPrime(235);
    passed := !r576 && !r100 && r777 && r235;
  }

  /** Through the method: zero is rejected, and `number` and `-number` give
      the same answer. */
  method TestZeroAndSign(number: int) returns (zeroRejected: bool, sameForNegation: bool)
    ensures zeroRejected && sameForNegation
  {
    var atZero := HasAllDigitsPrime(0);
    var positive := HasAllDigitsPrime(number);
    var negated := HasAllDigitsPrime(-number);
    zeroRejected := !atZero;
    sameForNegation := positive == negated;
  }
}
