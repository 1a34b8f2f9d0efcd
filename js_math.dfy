/**
 * The integer helpers of src/math/index.ts: `clamp`, `sign` and `euclideanMod`.
 * JavaScript numbers are modelled as `int`; NaN, the result of `% 0`, is `None`.
 */
module JsMath {
  import opened Wrappers

  /** `clamp(x, min, max)`: the two comparisons are made in this order, whatever `min` and `max` are. */
  function Clamp(x: int, min: int, max: int): (r: int)
    ensures x < min ==> r == min
    ensures min <= x && x > max ==> r == max
    ensures min <= x <= max ==> r == x
  {
    if x < min then min else if x > max then max else x
  }

  /** When the bounds are ordered the result lies between them and clamping again changes nothing. */
  lemma ClampInRange(x: int, min: int, max: int)
    requires min <= max
    ensures min <= Clamp(x, min, max) <= max
    ensures Clamp(Clamp(x, min, max), min, max) == Clamp(x, min, max)
  {
  }

  /** With crossed bounds `clamp` is not idempotent: a value below `min` ends at `max`. */
  lemma ClampCrossedBounds(x: int, min: int, max: int)
    requires max < min && x < min
    ensures Clamp(x, min, max) == min
    ensures Clamp(Clamp(x, min, max), min, max) == max
  {
  }

  function Sign(n: int): (r: int)
    ensures r == 1 <==> n > 0
    ensures r == -1 <==> n < 0
    ensures r == 0 <==> n == 0
  {
    if n > 0 then 1 else if n < 0 then -1 else 0
  }

  /** `sign` recovers the magnitude and is multiplicative. */
  lemma SignMultiplies(a: int, b: int)
    ensures Sign(a) * a >= 0 && Sign(a) * a == (if a < 0 then -a else a)
    ensures Sign(a * b) == Sign(a) * Sign(b)
  {
    if a > 0 && b > 0 {
      assert a * b > 0;
    } else if a > 0 && b < 0 {
      assert a * b < 0;
    } else if a < 0 && b > 0 {
      assert a * b < 0;
    } else if a < 0 && b < 0 {
      assert a * b > 0;
    }
  }

  /** `|n|` as an int. */
  function Abs(n: int): nat { if n < 0 then -n else n }

  /**
   * JavaScript's `%` on integers: the remainder of truncated division, whose
   * sign follows the numerator and whose magnitude is below `|d|`.
   */
  function TruncRem(n: int, d: int): (r: int)
    requires d != 0
    ensures Abs(r) < Abs(d)
    ensures r != 0 ==> (r < 0 <==> n < 0)
    ensures (n - r) % Abs(d) == 0
  {
    var a := Abs(d);
    if n >= 0 then
      DivMod(n, a);
      MultipleMod(n / a, a);
      assert n - n % a == a * (n / a);
      n % a
    else
      var m := -n;
      DivMod(m, a);
      MultipleMod(-(m / a), a);
      assert a * -(m / a) == -(a * (m / a));
      assert n + m % a == a * -(m / a);
      -(m % a)
  }

  /**
   * `euclideanMod(numerator, denominator)`: the JavaScript remainder, with the
   * denominator added once when that remainder is negative. A zero denominator
   * gives NaN (`None`).
   */
  function EuclideanMod(n: int, d: int): (r: Option<int>)
    ensures r.None? <==> d == 0
  {
    if d == 0 then None
    else
      var rem := TruncRem(n, d);
      Some(if rem < 0 then rem + d else rem)
  }

  /** For a positive denominator the result is the mathematical remainder: in `[0, d)` and congruent to `n`. */
  lemma EuclideanModPositive(n: int, d: int)
    requires d > 0
    ensures EuclideanMod(n, d) == Some(n % d)
    ensures 0 <= EuclideanMod(n, d).value < d
  {
    var rem := TruncRem(n, d);
    var r := if rem < 0 then rem + d else rem;
    DivMod(n - rem, d);
    var q := (n - rem) / d;
    if rem < 0 {
      assert n == d * (q - 1) + r;
      ModUnique(n, q - 1, r, d);
    } else {
      ModUnique(n, q, r, d);
    }
  }

  /** Whatever the signs, `euclideanMod(n, d) - n` is a multiple of `d`. */
  lemma EuclideanModCongruent(n: int, d: int)
    requires d != 0
    ensures (EuclideanMod(n, d).value - n) % Abs(d) == 0
  {
    var a := Abs(d);
    var rem := TruncRem(n, d);
    DivMod(n - rem, a);
    var q := (n - rem) / a;
    var r := EuclideanMod(n, d).value;
    var k := if rem >= 0 then -q else if d > 0 then 1 - q else -1 - q;
    assert r - n == a * k;
    MultipleMod(k, a);
  }

  /** With a negative denominator a negative remainder is pushed further from zero. */
  lemma EuclideanModSamples()
    ensures EuclideanMod(-1, -3) == Some(-4)
    ensures EuclideanMod(-7, 3) == Some(2)
    ensures EuclideanMod(7, -3) == Some(1)
    ensures EuclideanMod(5, 0) == None
  {
    DivMod(1, 3);
    DivMod(7, 3);
  }

  lemma MulAtLeast(d: int, k: int)
    requires d > 0 && k >= 1
    ensures d * k >= d
  {
    if k > 1 {
      MulAtLeast(d, k - 1);
      assert d * k == d * (k - 1) + d;
    }
  }

  lemma DivMod(n: int, d: int)
    requires d > 0
    ensures n == d * (n / d) + n % d && 0 <= n % d < d
  {
  }

  /** Euclidean division has one quotient and one remainder. */
  lemma ModUnique(n: int, q: int, r: int, d: int)
    requires d > 0 && 0 <= r < d && n == d * q + r
    ensures n % d == r && n / d == q
  {
    DivMod(n, d);
    var k := n / d - q;
    assert d * k == r - n % d by {
      assert d * (n / d) - d * q == d * k;
    }
    if k >= 1 {
      MulAtLeast(d, k);
    } else if k <= -1 {
      MulAtLeast(d, -k);
    }
  }

  lemma MultipleMod(q: int, d: int)
    requires d > 0
    ensures (d * q) % d == 0
  {
    ModUnique(d * q, q, 0, d);
  }
}
