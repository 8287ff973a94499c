/** The deviation of measurements from a target dominates the error of their mean (the Cauchy-Schwarz inequality). */
module Deviation {
  import opened Common
  import opened PacketGroups

  function Square(x: real): real {
    x * x
  }

  function Mean(total: real, n: nat): real
    requires n > 0
  {
    total / n as real
  }

  /** The squared error of a mean against a target. */
  function MeanErrorSquare(total: real, n: nat, target: int): real
    requires n > 0
  {
    Square(Mean(total, n) - target as real)
  }

  lemma NonNegative(m: int, e: int)
    requires m > 0 && m * e >= 0
    ensures e >= 0
  {
  }

  lemma SquareExpansion(m: int, s: int, q: int, x: int)
    ensures m * (q + m * (x * x) - 2 * (s * x)) == m * q - s * s + (s - m * x) * (s - m * x)
    ensures (m + 1) * (q + x * x) - (s + x) * (s + x) == (m * q - s * s) + (q + m * (x * x) - 2 * (s * x))
  {
  }

  lemma SquareNonNegative(x: int)
    ensures x * x >= 0
  {
  }

  lemma Conclude(m: int, e: int, a: int, d: int, left: int, right: int)
    requires m > 0 && m * e == a + d && a >= 0 && d >= 0 && left - right == a + e
    ensures left >= right
  {
    NonNegative(m, e);
  }

  lemma CauchyStep(m: int, s: int, q: int, x: int)
    requires m >= 0 && m * q >= s * s && (m == 0 ==> s == 0 && q == 0)
    ensures (m + 1) * (q + x * x) >= (s + x) * (s + x)
  {
    if m > 0 {
      var e, d := q + m * (x * x) - 2 * (s * x), s - m * x;
      SquareExpansion(m, s, q, x);
      SquareNonNegative(d);
      Conclude(m, e, m * q - s * s, d * d, (m + 1) * (q + x * x), (s + x) * (s + x));
    }
  }

  /** Sum of the deviations of the values from the target. */
  function SumOfDeviations(vals: seq<int>, target: int): int {
    Sum(vals) - |vals| * target
  }

  lemma SumOfDeviationsStep(vals: seq<int>, target: int)
    requires vals != []
    ensures SumOfDeviations(vals, target) == SumOfDeviations(vals[..|vals| - 1], target) + (vals[|vals| - 1] - target)
  {
    assert |vals| * target == (|vals| - 1) * target + target;
  }

  lemma {:induction false} CauchySchwarz(vals: seq<int>, target: int)
    ensures |vals| * SquaredDeviations(vals, target) >= SumOfDeviations(vals, target) * SumOfDeviations(vals, target)
  {
    if vals == [] {
      assert SumOfDeviations(vals, target) == 0;
    } else {
      var init, x := vals[..|vals| - 1], vals[|vals| - 1] - target;
      CauchySchwarz(init, target);
      SumOfDeviationsStep(vals, target);
      if init == [] {
        assert SumOfDeviations(init, target) == 0;
      }
      CauchyStep(|init|, SumOfDeviations(init, target), SquaredDeviations(init, target), x);
    }
  }

  lemma PositiveProduct(a: real, b: real)
    requires a > 0.0 && b > 0.0
    ensures a * b > 0.0
  {
  }

  lemma CancelLe(n: real, a: real, b: real)
    requires n > 0.0 && n * a <= n * b
    ensures a <= b
  {
    if a > b {
      PositiveProduct(n, a - b);
    }
  }

  lemma MeanBound(n: real, total: real, sq: real, target: real)
    requires n > 0.0 && (total - n * target) * (total - n * target) <= n * sq
    ensures (total / n - target) * (total / n - target) <= sq / n
  {
    var d, q := total / n - target, sq / n;
    assert total == n * (total / n) && sq == n * q;
    assert total - n * target == n * d;
    assert (n * d) * (n * d) == n * (n * (d * d));
    CancelLe(n, n * (d * d), sq);
    CancelLe(n, d * d, q);
  }

  lemma RealProduct(a: int, b: int)
    ensures (a * b) as real == a as real * b as real
  {
  }

  lemma ToReals(n: int, total: int, sq: int, target: int)
    requires n > 0 && n * sq >= (total - n * target) * (total - n * target)
    ensures MeanErrorSquare(total as real, n, target) <= Mean(sq as real, n)
  {
    var s := total - n * target;
    RealProduct(n, target);
    assert s as real == total as real - n as real * target as real;
    RealProduct(s, s);
    RealProduct(n, sq);
    assert s as real * s as real <= n as real * sq as real;
    MeanBound(n as real, total as real, sq as real, target as real);
  }

  /** For any non-empty list of measurements the squared error of the mean is at most the mean squared deviation. */
  lemma BiasWithinDeviation(vals: seq<int>, target: int)
    requires vals != []
    ensures MeanErrorSquare(Sum(vals) as real, |vals|, target) <= Mean(SquaredDeviations(vals, target) as real, |vals|)
  {
    CauchySchwarz(vals, target);
    ToReals(|vals|, Sum(vals), SquaredDeviations(vals, target), target);
  }

  /** So the root of the mean squared deviation is never below the error of the mean. */
  lemma RootBound(e: real, dev: real)
    requires dev >= 0.0 && e * e <= dev * dev
    ensures -dev <= e <= dev
  {
    if e > dev {
      PositiveProduct(e - dev, e + dev);
    }
    if e < -dev {
      PositiveProduct(-e - dev, -e + dev);
    }
  }

  lemma CancelIff(n: real, a: real, b: real)
    requires n > 0.0
    ensures n * a <= n * b <==> a <= b
  {
    if a <= b && n * a > n * b {
      CancelLe(n, b, a);
    }
    if n * a <= n * b {
      CancelLe(n, a, b);
    }
  }

  /** Comparing a mean with a fraction is a comparison of integers. */
  lemma MeanAgainstFraction(total: int, n: nat, limit: real, num: int, den: int)
    requires n > 0 && den > 0 && limit * den as real == num as real
    ensures Mean(total as real, n) <= limit <==> den * total <= n * num
  {
    var m, d := n as real, den as real;
    CancelIff(m, Mean(total as real, n), limit);
    assert m * Mean(total as real, n) == total as real;
    CancelIff(d, total as real, m * limit);
    assert d * (m * limit) == m * (limit * d);
    RealProduct(den, total);
    RealProduct(n, num);
  }
}
