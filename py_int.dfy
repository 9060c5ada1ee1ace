/** Python's integer operators, written out over Dafny's unbounded `int`.
    Python's `//` rounds toward negative infinity and its `%` takes the sign
    of the divisor; Dafny's `/` and `%` are Euclidean (the remainder is never
    negative). The two agree whenever the divisor is positive. */
module PyInt {

  /** Python's `a // d` (floor division). */
  function FloorDiv(a: int, d: int): (q: int)
    requires d != 0
    ensures d > 0 ==> d * q <= a < d * q + d
    ensures d < 0 ==> d * q + d < a <= d * q
  {
    if d < 0 && a % d != 0 then a / d - 1 else a / d
  }

  /** Python's `a % d`: the remainder that goes with `FloorDiv`. */
  function Mod(a: int, d: int): (r: int)
    requires d != 0
    ensures d > 0 ==> 0 <= r < d
    ensures d < 0 ==> d < r <= 0
    ensures a == d * FloorDiv(a, d) + r
  {
    if d < 0 && a % d != 0 then a % d + d else a % d
  }

  /** `abs(a)` */
  function Abs(a: int): (r: nat)
    ensures r == a || r == -a
  {
    if a < 0 then -a else a
  }

  /** Python's remainder is zero exactly when Dafny's is: divisibility does
      not depend on the rounding convention. */
  lemma ModZeroIffEuclidean(a: int, d: int)
    requires d != 0
    ensures Mod(a, d) == 0 <==> a % d == 0
  {
  }

  /** `a` is an integer multiple of `d`: the mathematical meaning of divisibility. */
  ghost predicate IsMultipleOf(a: int, d: int) {
    exists k :: a == k * d
  }

  /** A zero remainder means `a` is a multiple of `d`, and conversely. */
  lemma {:induction false} ModZeroIffMultiple(a: int, d: int)
    requires d != 0
    ensures Mod(a, d) == 0 <==> IsMultipleOf(a, d)
  {
    if Mod(a, d) == 0 {
      assert a == FloorDiv(a, d) * d;
    }
    if IsMultipleOf(a, d) {
      var k :| a == k * d;
      MultipleHasZeroMod(k, d);
    }
  }

  lemma MultipleHasZeroMod(k: int, d: int)
    requires d != 0
    ensures Mod(k * d, d) == 0
  {
    var r := Mod(k * d, d);
    var q := FloorDiv(k * d, d);
    var m := k - q;
    assert d * m == r by { assert d * m == d * k - d * q; }
    if d > 0 {
      SmallMultipleIsZero(m, d);
    } else {
      assert (-d) * (-m) == d * m;
      SmallMultipleIsZero(-m, -d);
    }
  }

  /** The only multiple of a positive `d` strictly between `-d` and `d` is zero. */
  lemma SmallMultipleIsZero(m: int, d: int)
    requires d > 0
    requires -d < d * m < d
    ensures m == 0
  {
    if m > 0 {
      MultipleAtLeast(m, d);
    } else if m < 0 {
      MultipleAtLeast(-m, d);
    }
  }

  lemma MultipleAtLeast(m: int, d: int)
    requires d > 0 && m > 0
    ensures d * m >= d
  {
    assert d * m == d * (m - 1) + d;
  }
}
