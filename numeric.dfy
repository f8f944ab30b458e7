/**
 * Integer arithmetic as the two source languages perform it: Python's
 * `round` (half to even), Python slice bounds, Java's truncating division.
 */
module Numeric {
  import opened Wrappers

  function Abs(x: int): nat { if x < 0 then -x else x }

  function Min(a: int, b: int): int { if a <= b then a else b }

  function Max(a: int, b: int): int { if a >= b then a else b }

  /** Python 3 `round(n / d)` of an exact rational: nearest integer, ties to the even one. */
  function RoundHalfEven(n: int, d: int): (r: int)
    requires d > 0
    ensures 2 * Abs(r * d - n) <= d
    ensures 2 * Abs(r * d - n) == d ==> r % 2 == 0
  {
    var q := n / d;
    var m := n % d;
    assert n == q * d + m && 0 <= m < d;
    assert q * d - n == -m;
    assert (q + 1) * d == q * d + d;
    if 2 * m < d then q
    else if 2 * m > d then q + 1
    else if q % 2 == 0 then q else q + 1
  }

  lemma MulStep(e: int, d: int)
    requires d > 0 && e >= 2
    ensures e * d >= 2 * d
  {
  }

  /** Two integers both within half a step of n / d are equal or are two ties. */
  lemma {:induction false} NearestTwo(n: int, d: int, x: int, y: int)
    requires d > 0 && 2 * Abs(x * d - n) <= d && 2 * Abs(y * d - n) <= d
    ensures x == y || ((x == y + 1 || y == x + 1) && 2 * Abs(x * d - n) == d && 2 * Abs(y * d - n) == d)
  {
    var a, b := x * d - n, y * d - n;
    assert a - b == (x - y) * d;
    if x - y >= 2 {
      MulStep(x - y, d);
    } else if y - x >= 2 {
      MulStep(y - x, d);
    } else if x == y + 1 {
      assert a == b + d;
    } else if y == x + 1 {
      assert b == a + d;
    }
  }

  /** The rounded value is the unique integer within half a step, ties broken to even. */
  lemma {:induction false} RoundHalfEvenUnique(n: int, d: int, r: int)
    requires d > 0
    requires 2 * Abs(r * d - n) < d || (2 * Abs(r * d - n) == d && r % 2 == 0)
    ensures RoundHalfEven(n, d) == r
  {
    NearestTwo(n, d, RoundHalfEven(n, d), r);
  }

  /** Java `a / b` on ints: the quotient truncated toward zero. */
  function JavaDiv(a: int, b: int): (r: int)
    requires b != 0
    ensures Abs(r) == Abs(a) / Abs(b)
    ensures r > 0 ==> (a < 0) == (b < 0)
    ensures r < 0 ==> (a < 0) != (b < 0)
  {
    var q: int := DivNat(Abs(a), Abs(b));
    if (a < 0) == (b < 0) then q else -q
  }

  function DivNat(x: nat, y: nat): (q: nat)
    requires y > 0
    ensures q == x / y
  {
    x / y
  }

  /** On non-negative operands Java's division is the floor division. */
  lemma JavaDivNonNegative(a: int, b: int)
    requires 0 <= a && 0 < b
    ensures JavaDiv(a, b) == a / b
  {
  }

  lemma MulLess(a: int, b: int, c: int)
    requires c > 0 && a * c < b * c
    ensures a < b
  {
  }

  /** Floor division of a non-negative total keeps the mean within `[lo, hi]`. */
  lemma FloorMeanBetween(sum: nat, count: int, lo: int, hi: int)
    requires count > 0 && count * lo <= sum <= count * hi
    ensures lo <= sum / count <= hi
  {
    var q := sum / count;
    assert q * count <= sum < q * count + count;
    assert (hi + 1) * count == hi * count + count;
    assert (q + 1) * count == q * count + count;
    MulLess(q, hi + 1, count);
    MulLess(lo, q + 1, count);
  }

  /** A truncated mean of values in `[lo, hi]` stays in `[lo, hi]`. */
  lemma TruncatedMeanBetween(sum: int, count: int, lo: int, hi: int)
    requires count > 0 && count * lo <= sum <= count * hi
    ensures lo <= JavaDiv(sum, count) <= hi
  {
    if sum >= 0 {
      FloorMeanBetween(sum, count, lo, hi);
    } else {
      assert count * -hi == -(count * hi) && count * -lo == -(count * lo);
      FloorMeanBetween(-sum, count, -hi, -lo);
    }
  }

  /** Python `int(x)` on a non-negative value given as n / d: truncation toward zero. */
  function TruncNonNeg(n: int, d: int): (r: int)
    requires n >= 0 && d > 0
    ensures 0 <= r && r * d <= n < (r + 1) * d
  {
    n / d
  }

  /**
   * Python's normalisation of one slice bound `i` for a sequence of length `n`:
   * a negative bound counts from the end, and the result is clamped to [0, n].
   */
  function SliceBound(i: int, n: nat): (b: nat)
    ensures b <= n
    ensures 0 <= i <= n ==> b == i
    ensures i > n ==> b == n
    ensures i < 0 && i + n >= 0 ==> b == i + n
    ensures i + n < 0 ==> b == 0
  {
    if i < 0 then (if i + n < 0 then 0 else i + n)
    else if i > n then n
    else i
  }

  /** The positions `s[start:stop]` selects, as a half-open range `[lo, hi)` with lo <= hi. */
  function SliceRange(start: int, stop: int, n: nat): (r: (nat, nat))
    ensures r.0 <= r.1 <= n
    ensures r.0 == SliceBound(start, n)
    ensures r.1 == Max(SliceBound(start, n), SliceBound(stop, n))
  {
    var lo := SliceBound(start, n);
    var hi := SliceBound(stop, n);
    (lo, if hi < lo then lo else hi)
  }

  /** Python `seq[i]` with a possibly negative index; `None` is an IndexError. */
  function PyIndex(i: int, n: nat): (k: Option<nat>)
    ensures k.Some? <==> 0 <= i + n && i < n
    ensures k.Some? ==> k.value < n && (k.value == i || k.value == i + n)
  {
    if 0 <= i < n then Some(i)
    else if i < 0 && 0 <= i + n then Some(i + n)
    else None
  }
}
