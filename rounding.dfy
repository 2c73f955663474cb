/**
 * The average grade: `round(sum(grades) / len(grades), 2)`, computed exactly.
 * An average is an integer number of hundredths; rounding is to the nearest
 * hundredth with ties to the even neighbour, as Python's `round` does on a value
 * that is exactly representable.
 */
module Rounding {

  function Sum(xs: seq<int>): int {
    if |xs| == 0 then 0 else Sum(xs[..|xs| - 1]) + xs[|xs| - 1]
  }

  function Abs(x: int): nat { if x < 0 then -x else x }

  /**
   * `q` is a nearest integer to the rational `n / d`, and on a tie (the
   * distance is exactly one half) it is the even one.
   */
  ghost predicate NearestHalfEven(n: int, d: int, q: int)
    requires d > 0
  {
    && 2 * Abs(n - q * d) <= d
    && (2 * Abs(n - q * d) == d ==> q % 2 == 0)
  }

  /** `n / d` rounded to an integer, ties to even. */
  function RoundHalfEven(n: int, d: int): (q: int)
    requires d > 0
    ensures NearestHalfEven(n, d, q)
  {
    var f, r := n / d, n % d;
    assert n - f * d == r;
    assert n - (f + 1) * d == r - d;
    if 2 * r < d then f
    else if 2 * r > d then f + 1
    else if f % 2 == 0 then f
    else f + 1
  }

  lemma MulAtLeast(k: nat, d: nat)
    ensures k * d >= 0
    ensures k >= 1 ==> k * d >= d
    ensures k >= 2 ==> k * d >= 2 * d
  {
    if k >= 1 {
      assert k * d == (k - 1) * d + d;
    }
    if k >= 2 {
      assert k * d == (k - 2) * d + 2 * d;
    }
  }

  /**
   * Two candidates `lo` and `lo + k` at distances `a` and `b` from `n`, where
   * `a - b = k * d`: both within one half of `d` forces them to coincide.
   */
  lemma CandidatesCoincide(a: int, b: int, d: int, k: nat, lo: int)
    requires d > 0
    requires 2 * Abs(a) <= d && (2 * Abs(a) == d ==> lo % 2 == 0)
    requires 2 * Abs(b) <= d && (2 * Abs(b) == d ==> (lo + k) % 2 == 0)
    requires k >= 1 ==> a - b >= d
    requires k >= 2 ==> a - b >= 2 * d
    ensures k == 0
  {
  }

  lemma Distribute(lo: int, k: int, d: int)
    ensures (lo + k) * d == lo * d + k * d
  {
  }

  lemma OrderedCandidatesCoincide(n: int, d: int, lo: int, hi: int)
    requires d > 0 && lo <= hi
    requires NearestHalfEven(n, d, lo) && NearestHalfEven(n, d, hi)
    ensures lo == hi
  {
    var k: nat := hi - lo;
    Distribute(lo, k, d);
    MulAtLeast(k, d);
    CandidatesCoincide(n - lo * d, n - hi * d, d, k, lo);
  }

  /** The rounding rule leaves no choice: at most one integer is nearest-half-even. */
  lemma NearestHalfEvenUnique(n: int, d: int, q1: int, q2: int)
    requires d > 0
    requires NearestHalfEven(n, d, q1) && NearestHalfEven(n, d, q2)
    ensures q1 == q2
  {
    if q1 <= q2 {
      OrderedCandidatesCoincide(n, d, q1, q2);
    } else {
      OrderedCandidatesCoincide(n, d, q2, q1);
    }
  }

  /**
   * The reported average of a non-empty list of grades, in hundredths: the
   * exact mean times 100, rounded half-to-even.
   */
  function AverageHundredths(grades: seq<int>): (h: int)
    requires |grades| > 0
    ensures 2 * Abs(100 * Sum(grades) - h * |grades|) <= |grades|
    ensures 2 * Abs(100 * Sum(grades) - h * |grades|) == |grades| ==> h % 2 == 0
  {
    RoundHalfEven(100 * Sum(grades), |grades|)
  }

  /** `h` is the average of `grades`: any value meeting the rounding rule is the one reported. */
  lemma AverageIs(grades: seq<int>, h: int)
    requires |grades| > 0 && NearestHalfEven(100 * Sum(grades), |grades|, h)
    ensures AverageHundredths(grades) == h
  {
    NearestHalfEvenUnique(100 * Sum(grades), |grades|, h, AverageHundredths(grades));
  }

  /** Whole-number averages from the report's test data. */
  lemma AverageExamplesWhole()
    ensures AverageHundredths([5, 5]) == 500
    ensures AverageHundredths([3, 4, 5]) == 400
    ensures AverageHundredths([2, 3, 4]) == 300
    ensures AverageHundredths([5]) == 500
  {
    assert [5, 5][..1] == [5];
    assert [3, 4, 5][..2] == [3, 4] && [3, 4][..1] == [3];
    assert [2, 3, 4][..2] == [2, 3] && [2, 3][..1] == [2];
    AverageIs([5, 5], 500);
    AverageIs([3, 4, 5], 400);
    AverageIs([2, 3, 4], 300);
    AverageIs([5], 500);
  }

  /** Fractional averages: an exact half, and a third rounded to two places. */
  lemma AverageExamplesFractional()
    ensures AverageHundredths([4, 5]) == 450
    ensures AverageHundredths([4, 4, 5]) == 433
  {
    assert [4, 5][..1] == [4];
    assert [4, 4, 5][..2] == [4, 4] && [4, 4][..1] == [4];
    AverageIs([4, 5], 450);
    AverageIs([4, 4, 5], 433);
  }

  /** 9 / 8 = 1.125 exactly: a tie at the second place, resolved to the even 1.12. */
  lemma AverageTieToEven()
    ensures AverageHundredths([1, 1, 1, 1, 1, 1, 1, 2]) == 112
  {
    var ones := [1, 1, 1, 1, 1, 1, 1, 2];
    assert Sum(ones) == 9 by {
      assert Sum([1]) == 1;
      assert [1, 1][..1] == [1];
      assert [1, 1, 1][..2] == [1, 1];
      assert [1, 1, 1, 1][..3] == [1, 1, 1];
      assert [1, 1, 1, 1, 1][..4] == [1, 1, 1, 1];
      assert [1, 1, 1, 1, 1, 1][..5] == [1, 1, 1, 1, 1];
      assert [1, 1, 1, 1, 1, 1, 1][..6] == [1, 1, 1, 1, 1, 1];
      assert ones[..7] == [1, 1, 1, 1, 1, 1, 1];
    }
    AverageIs(ones, 112);
  }
}
