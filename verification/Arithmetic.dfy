/** Facts about quotients and remainders that the solver does not find by itself. */
module Arithmetic {

  /** A non-zero multiple of m is at least m away from zero. */
  lemma MultipleIsFar(k: int, m: int)
    requires 0 < m
    ensures k >= 1 ==> k * m >= m
    ensures k <= -1 ==> k * m <= -m
  {
    if k >= 1 {
      assert (k - 1) * m >= 0;
    } else if k <= -1 {
      assert (k + 1) * m <= 0;
    }
  }

  lemma ModUnique(x: int, k: int, r: int, m: int)
    requires 0 <= r < m && x == k * m + r
    ensures x % m == r && x / m == k
  {
    var d := x / m - k;
    assert x == (x / m) * m + x % m;
    assert d * m == r - x % m;
    MultipleIsFar(d, m);
  }

  lemma ModShift(x: int, y: int, k: int, m: int)
    requires 0 < m && y == x + k * m
    ensures y % m == x % m
  {
    assert y == (x / m + k) * m + x % m by {
      assert x == (x / m) * m + x % m;
    }
    ModUnique(y, x / m + k, x % m, m);
  }

  lemma SmallMultipleIsZero(d: int, k: int, m: int)
    requires -m < d < m && d == k * m
    ensures d == 0
  {
  }
}
